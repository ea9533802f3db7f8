/** The commit graph and go-git's preorder commit iterator. A commit is identified by its hash and
    the hash covers everything in it, so a commit is modelled as the value it hashes. */
module Commits {
  import opened Trees

  // A replayed commit's message quotes the hash of the commit it was made from.
  datatype Message = Text(text: string) | Picked(mergeDiff: bool, original: Commit)

  datatype Commit = Commit(parents: seq<Commit>, tree: Tree, message: Message)

  /** Everything reachable from `c` through parent links, `c` included. */
  function Ancestors(c: Commit): set<Commit>
    decreases c, 1
  {
    {c} + AncestorsOfAll(c.parents)
  }

  function AncestorsOfAll(cs: seq<Commit>): set<Commit>
    decreases cs, 0
  {
    if cs == [] then {} else Ancestors(cs[0]) + AncestorsOfAll(cs[1..])
  }

  /** `NewCommitPreorderIter`: depth first, first parent first, each commit once. */
  function Visit(c: Commit, seen: set<Commit>): seq<Commit>
    decreases c, 1
  {
    if c in seen then [] else [c] + VisitAll(c.parents, seen + {c})
  }

  function VisitAll(cs: seq<Commit>, seen: set<Commit>): seq<Commit>
    decreases cs, 0
  {
    if cs == [] then []
    else
      var first := Visit(cs[0], seen);
      first + VisitAll(cs[1..], seen + Members(first))
  }

  function Members(cs: seq<Commit>): set<Commit> {
    set c | c in cs
  }

  ghost predicate Distinct(cs: seq<Commit>) {
    forall i, j :: 0 <= i < j < |cs| ==> cs[i] != cs[j]
  }

  /** Every parent of a commit of `done` is in `done` or still `pending`. */
  ghost predicate Closed(done: set<Commit>, pending: set<Commit>) {
    forall c :: c in done ==> forall p :: p in c.parents ==> p in done || p in pending
  }

  // ----- ancestry

  lemma {:induction false} AncestorRank(c: Commit, a: Commit)
    requires a in Ancestors(c)
    ensures a == c || (c decreases to a)
    decreases c, 1
  {
    if a != c { AncestorRankAll(c.parents, a); }
  }

  lemma {:induction false} AncestorRankAll(cs: seq<Commit>, a: Commit)
    requires a in AncestorsOfAll(cs)
    ensures cs decreases to a
    decreases cs, 0
  {
    if a in Ancestors(cs[0]) { AncestorRank(cs[0], a); } else { AncestorRankAll(cs[1..], a); }
  }

  lemma {:induction false} ParentIsAncestor(cs: seq<Commit>, p: Commit)
    requires p in cs
    ensures Ancestors(p) <= AncestorsOfAll(cs)
  {
    if p != cs[0] { ParentIsAncestor(cs[1..], p); }
  }

  lemma {:induction false} AncestorsTransitive(c: Commit, a: Commit)
    requires a in Ancestors(c)
    ensures Ancestors(a) <= Ancestors(c)
    decreases c, 1
  {
    if a != c { AncestorsTransitiveAll(c.parents, a); }
  }

  lemma {:induction false} AncestorsTransitiveAll(cs: seq<Commit>, a: Commit)
    requires a in AncestorsOfAll(cs)
    ensures Ancestors(a) <= AncestorsOfAll(cs)
    decreases cs, 0
  {
    if a in Ancestors(cs[0]) { AncestorsTransitive(cs[0], a); } else { AncestorsTransitiveAll(cs[1..], a); }
  }

  /** A set closed under parents holds all ancestors of its members. */
  lemma {:induction false} ClosedHoldsAncestors(done: set<Commit>, c: Commit)
    requires Closed(done, {}) && c in done
    ensures Ancestors(c) <= done
    decreases c, 1
  {
    assert forall p :: p in c.parents ==> p in done;
    ClosedHoldsAncestorsAll(done, c.parents);
  }

  lemma {:induction false} ClosedHoldsAncestorsAll(done: set<Commit>, cs: seq<Commit>)
    requires Closed(done, {}) && forall c :: c in cs ==> c in done
    ensures AncestorsOfAll(cs) <= done
    decreases cs, 0
  {
    if cs != [] {
      ClosedHoldsAncestors(done, cs[0]);
      ClosedHoldsAncestorsAll(done, cs[1..]);
    }
  }

  lemma OneParent(c: Commit, p: Commit)
    requires c.parents == [p]
    ensures Ancestors(c) == {c} + Ancestors(p)
  {
    assert AncestorsOfAll(c.parents[1..]) == {};
  }

  // ----- the iterator

  lemma {:induction false} VisitIsFresh(c: Commit, seen: set<Commit>)
    ensures Distinct(Visit(c, seen)) && Members(Visit(c, seen)) !! seen
    ensures Members(Visit(c, seen)) <= Ancestors(c)
    decreases c, 1
  {
    if c !in seen { VisitAllIsFresh(c.parents, seen + {c}); }
  }

  lemma {:induction false} VisitAllIsFresh(cs: seq<Commit>, seen: set<Commit>)
    ensures Distinct(VisitAll(cs, seen)) && Members(VisitAll(cs, seen)) !! seen
    ensures Members(VisitAll(cs, seen)) <= AncestorsOfAll(cs)
    decreases cs, 0
  {
    if cs != [] {
      var first := Visit(cs[0], seen);
      var rest := VisitAll(cs[1..], seen + Members(first));
      VisitIsFresh(cs[0], seen);
      VisitAllIsFresh(cs[1..], seen + Members(first));
      assert forall i :: 0 <= i < |first| ==> first[i] in Members(first);
      assert forall i :: 0 <= i < |rest| ==> rest[i] in Members(rest);
      assert Members(first + rest) == Members(first) + Members(rest);
    }
  }

  lemma {:induction false} VisitLeavesClosed(c: Commit, seen: set<Commit>, pending: set<Commit>)
    requires Closed(seen, pending)
    ensures c in seen + Members(Visit(c, seen)) && Closed(seen + Members(Visit(c, seen)), pending)
    decreases c, 1
  {
    if c !in seen {
      var parents := Members(c.parents);
      VisitAllLeavesClosed(c.parents, seen + {c}, pending);
      var rest := VisitAll(c.parents, seen + {c});
      assert seen + Members([c] + rest) == (seen + {c}) + Members(rest);
    } else {
      assert seen + Members(Visit(c, seen)) == seen;
    }
  }

  lemma {:induction false} VisitAllLeavesClosed(cs: seq<Commit>, seen: set<Commit>, pending: set<Commit>)
    requires Closed(seen, pending + Members(cs))
    ensures Members(cs) <= seen + Members(VisitAll(cs, seen))
    ensures Closed(seen + Members(VisitAll(cs, seen)), pending)
    decreases cs, 0
  {
    if cs == [] {
      assert pending + Members(cs) == pending;
      assert seen + Members(VisitAll(cs, seen)) == seen;
    } else {
      var first := Visit(cs[0], seen);
      var seen' := seen + Members(first);
      var rest := VisitAll(cs[1..], seen');
      assert Members(cs) == {cs[0]} + Members(cs[1..]);
      assert pending + Members(cs) == (pending + Members(cs)) + {};
      VisitLeavesClosed(cs[0], seen, pending + Members(cs));
      assert Closed(seen', pending + Members(cs[1..]));
      VisitAllLeavesClosed(cs[1..], seen', pending);
      assert seen + Members(first + rest) == seen' + Members(rest);
    }
  }

  /** From scratch the iterator visits every ancestor exactly once. */
  lemma VisitIsComplete(c: Commit)
    ensures Distinct(Visit(c, {})) && Members(Visit(c, {})) == Ancestors(c)
  {
    VisitIsFresh(c, {});
    VisitLeavesClosed(c, {}, {});
    assert {} + Members(Visit(c, {})) == Members(Visit(c, {}));
    ClosedHoldsAncestors(Members(Visit(c, {})), c);
  }

  /** What `seen` holds of an ancestry it holds with all parents. */
  ghost predicate Settled(ancestry: set<Commit>, seen: set<Commit>) {
    forall a :: a in seen && a in ancestry ==> forall p :: p in a.parents ==> p in seen
  }

  lemma SettledHolds(c: Commit, seen: set<Commit>)
    requires Settled(Ancestors(c), seen) && c in seen
    ensures Ancestors(c) <= seen
  {
    AncestryIsClosed(c);
    ClosedHoldsAncestors(seen * Ancestors(c), c);
  }

  lemma SettledBelow(c: Commit, seen: set<Commit>)
    requires Settled(Ancestors(c), seen)
    ensures Settled(AncestorsOfAll(c.parents), seen + {c})
  {
    if c in AncestorsOfAll(c.parents) { AncestorRankAll(c.parents, c); }
  }

  lemma SettledNext(cs: seq<Commit>, seen: set<Commit>)
    requires cs != [] && Settled(AncestorsOfAll(cs), seen)
    ensures Settled(Ancestors(cs[0]), seen) && Settled(AncestorsOfAll(cs[1..]), seen + (Ancestors(cs[0]) - seen))
  {
    AncestryIsClosed(cs[0]);
  }

  /** From a settled point the iterator yields exactly the ancestors not yet seen. */
  lemma {:induction false} VisitFromSettled(c: Commit, seen: set<Commit>)
    requires Settled(Ancestors(c), seen)
    ensures Members(Visit(c, seen)) == Ancestors(c) - seen
    decreases c, 1
  {
    if c in seen {
      SettledHolds(c, seen);
    } else {
      SettledBelow(c, seen);
      VisitAllFromSettled(c.parents, seen + {c});
      if c in AncestorsOfAll(c.parents) { AncestorRankAll(c.parents, c); }
      var rest := VisitAll(c.parents, seen + {c});
      assert Members([c] + rest) == {c} + Members(rest);
    }
  }

  lemma {:induction false} VisitAllFromSettled(cs: seq<Commit>, seen: set<Commit>)
    requires Settled(AncestorsOfAll(cs), seen)
    ensures Members(VisitAll(cs, seen)) == AncestorsOfAll(cs) - seen
    decreases cs, 0
  {
    if cs != [] {
      SettledNext(cs, seen);
      VisitFromSettled(cs[0], seen);
      var first := Visit(cs[0], seen);
      VisitAllFromSettled(cs[1..], seen + Members(first));
      var rest := VisitAll(cs[1..], seen + Members(first));
      assert Members(first + rest) == Members(first) + Members(rest);
    }
  }

  /** An ancestry is closed under parents. */
  lemma AncestryIsClosed(c: Commit)
    ensures Closed(Ancestors(c), {})
  {
    forall a, p | a in Ancestors(c) && p in a.parents ensures p in Ancestors(c) {
      AncestorsTransitive(c, a);
      ParentIsAncestor(a.parents, p);
      assert p in Ancestors(p);
    }
  }

  lemma AncestorsAreOrdered(c: Commit, d: Commit)
    requires c in Ancestors(d) && d in Ancestors(c)
    ensures c == d
  {
    AncestorRank(d, c);
    AncestorRank(c, d);
  }

  /** Every history starts somewhere. */
  lemma {:induction false} RootOf(c: Commit) returns (root: Commit)
    ensures root in Ancestors(c) && root.parents == []
    decreases c
  {
    root := c;
    if c.parents != [] {
      root := RootOf(c.parents[0]);
      ParentIsAncestor(c.parents, c.parents[0]);
    }
  }

  // ----- branches without merges of their own

  /** No commit reachable from `c` outside `reached` has more than one parent; `reached` may hold any merges. */
  ghost predicate MergeFree(c: Commit, reached: set<Commit>) {
    forall a :: a in Ancestors(c) - reached ==> |a.parents| <= 1
  }

  /** `c`, its parent, and so on down to `reached` or to a root. */
  function OwnChain(c: Commit, reached: set<Commit>): seq<Commit>
    decreases c
  {
    if c in reached then []
    else if c.parents == [] then [c]
    else [c] + OwnChain(c.parents[0], reached)
  }

  lemma OwnParent(c: Commit, reached: set<Commit>) returns (p: Commit)
    requires MergeFree(c, reached) && c !in reached && c.parents != []
    ensures c.parents == [p] && Ancestors(c) == {c} + Ancestors(p) && c !in Ancestors(p) && MergeFree(p, reached)
  {
    p := c.parents[0];
    assert c in Ancestors(c) - reached;
    assert c.parents == [p];
    OneParent(c, p);
    if c in Ancestors(p) { AncestorRank(p, c); }
  }

  /** `rest` is what the iterator yields from below the line `own` that starts at `c`. */
  ghost predicate Resumes(c: Commit, own: seq<Commit>, seen: set<Commit>, rest: seq<Commit>) {
    if own == [] then rest == Visit(c, seen)
    else own[|own| - 1].parents != [] ==> rest == Visit(own[|own| - 1].parents[0], seen + Members(own))
  }

  lemma OneMoreOwn(c: Commit, p: Commit, own: seq<Commit>, seen: set<Commit>, rest: seq<Commit>)
    requires c.parents == [p] && c !in seen
    requires Visit(p, seen + {c}) == own + rest && Resumes(p, own, seen + {c}, rest)
    ensures Visit(c, seen) == ([c] + own) + rest && Resumes(c, [c] + own, seen, rest)
  {
    assert VisitAll([p], seen + {c}) == Visit(p, seen + {c}) + [];
    assert [c] + (own + rest) == ([c] + own) + rest;
    assert seen + {c} + Members(own) == seen + Members([c] + own);
    if own == [] {
      assert [c] + own == [c] && seen + {c} == seen + Members([c]);
    } else {
      assert ([c] + own)[|own|] == own[|own| - 1];
    }
  }

  /** The iterator walks the branch's own commits first; what follows it reaches from where they end. */
  lemma {:induction false} VisitOwnFirst(c: Commit, reached: set<Commit>, seen: set<Commit>)
      returns (rest: seq<Commit>)
    requires Closed(reached, {}) && MergeFree(c, reached) && Ancestors(c) - reached !! seen
    ensures Visit(c, seen) == OwnChain(c, reached) + rest && Members(rest) <= reached
    ensures Resumes(c, OwnChain(c, reached), seen, rest)
    decreases c
  {
    if c in reached {
      rest := Visit(c, seen);
      VisitIsFresh(c, seen);
      ClosedHoldsAncestors(reached, c);
    } else {
      assert c in Ancestors(c) - reached;
      if c.parents == [] {
        rest := [];
      } else {
        var p := OwnParent(c, reached);
        rest := VisitOwnFirst(p, reached, seen + {c});
        OneMoreOwn(c, p, OwnChain(p, reached), seen, rest);
      }
    }
  }

  lemma {:induction false} OwnChainMembers(c: Commit, reached: set<Commit>)
    requires Closed(reached, {}) && MergeFree(c, reached)
    ensures Members(OwnChain(c, reached)) == Ancestors(c) - reached
    decreases c
  {
    if c in reached {
      ClosedHoldsAncestors(reached, c);
    } else if c.parents == [] {
      assert Members([c]) == {c};
    } else {
      var p := OwnParent(c, reached);
      OwnChainMembers(p, reached);
      assert Members([c] + OwnChain(p, reached)) == {c} + Members(OwnChain(p, reached));
    }
  }

  /** The own commits form one line of parents that ends at a root or just above `reached`. */
  lemma {:induction false} OwnChainLinks(c: Commit, reached: set<Commit>)
    requires MergeFree(c, reached)
    ensures var own := OwnChain(c, reached);
            && (forall i :: 0 <= i < |own| - 1 ==> own[i].parents == [own[i + 1]])
            && (own == [] <==> c in reached)
            && (own != [] ==>
                  var last := own[|own| - 1];
                  && own[0] == c && |last.parents| <= 1 && (last.parents != [] ==> last.parents[0] in reached)
                  && Ancestors(c) == Members(own) + if last.parents == [] then {} else Ancestors(last.parents[0]))
    decreases c
  {
    if c in reached {
    } else if c.parents == [] {
      assert Members([c]) == {c};
    } else {
      var p := OwnParent(c, reached);
      OwnChainLinks(p, reached);
      var own := OwnChain(p, reached);
      assert Members([c] + own) == {c} + Members(own);
      if own != [] {
        assert ([c] + own)[|own|] == own[|own| - 1];
      }
    }
  }
}
