/** The repository as the code drives it: a checked-out branch, its index, and the remote branch. */
module Repositories {
  import opened Options
  import opened Trees
  import opened Commits
  import opened ChangeReplay
  import opened CherryPicks
  import opened PRHistory
  import opened Rebases

  datatype Outcome = Ok | NoParent | NotAMerge | Conflict(files: seq<string>)

  datatype PushResult = Pushed | UpToDate | NonFastForward | Unreachable

  datatype RebaseOutcome =
    | NothingToDo
    | BaseNotInHistory
    | PickFailed(at: nat, outcome: Outcome)
    | PushFailed(push: PushResult)
    | Done

  ghost function VerdictOf(o: Outcome): Verdict {
    match o
    case Conflict(files) => Clash(Elements(files))
    case Ok => Clean
    case _ => Rootless
  }

  class Repository {
    var head: Commit
    var index: Tree
    var remote: Option<Commit>

    constructor (head: Commit, remote: Option<Commit>)
      ensures this.head == head && index == head.tree && this.remote == remote
    {
      this.head, this.index, this.remote := head, head.tree, remote;
    }

    ghost function Now(): Snapshot
      reads this`head, this`index
    {
      Snapshot(head, index)
    }

    /** The change loop shared word for word by the regular and the merge pick. */
    method ReplayOnto(changes: seq<Change>, headChanged: set<Path>, source: Tree)
        returns (conflicted: seq<string>, applied: seq<string>)
      modifies this`index
      ensures Progress(index, conflicted, applied) ==
              ReplayChanges(Progress(old(index), [], []), changes, headChanged, source)
    {
      conflicted, applied := [], [];
      for i := 0 to |changes|
        invariant Progress(index, conflicted, applied) ==
                  ReplayChanges(Progress(old(index), [], []), changes[..i], headChanged, source)
      {
        assert changes[..i + 1][..i] == changes[..i];
        var to, from := changes[i].to, changes[i].from;
        if to == "" && from == "" {
          continue;
        }
        if to == "" {
          if from in headChanged {
            conflicted := conflicted + [from];
            continue;
          }
          index := Unstage(index, from);
          continue;
        }
        if from != "" && from != to {
          if from in headChanged {
            conflicted := conflicted + [from];
            continue;
          }
          index := Unstage(index, from);
        }
        if to in headChanged {
          conflicted := conflicted + [to];
          continue;
        }
        var text := FileText(source, to);
        if text == None {
          continue;
        }
        index := Stage(index, to, text.value);
        applied := applied + [to];
      }
      assert changes[..|changes|] == changes;
    }

    /** `headChanged`: the target names of HEAD's changes, so deletions leave no trace. */
    method HeadChanged(parent: Tree) returns (headChanged: set<Path>)
      ensures headChanged == Written(parent, head.tree)
    {
      var changes := DiffTree(parent, head.tree);
      headChanged := {};
      for i := 0 to |changes|
        invariant headChanged == NamesOf(changes[..i]) * Written(parent, head.tree)
      {
        assert changes[..i + 1] == changes[..i] + [changes[i]];
        NamesOfAppend(changes[..i], changes[i]);
        assert NameOf(changes[i]) in NamesOf(changes);
        if changes[i].to != "" {
          headChanged := headChanged + {changes[i].to};
        }
      }
      assert changes[..|changes|] == changes;
    }

    method CherryPickRegular(source: Commit) returns (o: Outcome)
      requires |source.parents| < 2
      modifies this`head, this`index
      ensures Now() == PickSnapshot(old(Now()), source) && VerdictOf(o) == PickVerdict(old(Now()), source)
      ensures o.Conflict? ==> ChangeReplay.Distinct(o.files)
      ensures o != NotAMerge
    {
      if |source.parents| == 0 {
        return NoParent;
      }
      var parentTree, sourceTree := source.parents[0].tree, source.tree;
      var changes := DiffTree(parentTree, sourceTree);
      if |changes| == 0 {
        UntouchedPick(Now(), source);
        return Ok;
      }
      var headChanged := HeadChanged(parentTree);
      ghost var before := Now();
      var conflicted, applied := ReplayOnto(changes, headChanged, sourceTree);
      ReplayedIsPick(before, source, changes, Progress(index, conflicted, applied));
      if |conflicted| > 0 {
        return Conflict(conflicted);
      }
      if |applied| == 0 {
        return Ok;
      }
      head := Commit([head], index, Picked(false, source));
      return Ok;
    }

    method CherryPickMergeDiff(source: Commit) returns (o: Outcome)
      modifies this`head, this`index
      ensures |source.parents| < 2 ==> o == NotAMerge && Now() == old(Now())
      ensures |source.parents| >= 2 ==> o != NotAMerge
      ensures |source.parents| >= 2 ==>
                Now() == PickSnapshot(old(Now()), source) && VerdictOf(o) == PickVerdict(old(Now()), source)
      ensures o.Conflict? ==> ChangeReplay.Distinct(o.files)
    {
      if |source.parents| < 2 {
        return NotAMerge;
      }
      var parentTree, mergeTree := source.parents[0].tree, source.tree;
      var changes := DiffTree(parentTree, mergeTree);
      if |changes| == 0 {
        UntouchedPick(Now(), source);
        return Ok;
      }
      var headChanged := HeadChanged(parentTree);
      ghost var before := Now();
      var conflicted, applied := ReplayOnto(changes, headChanged, mergeTree);
      ReplayedIsPick(before, source, changes, Progress(index, conflicted, applied));
      if |conflicted| > 0 {
        return Conflict(conflicted);
      }
      if |applied| == 0 {
        return Ok;
      }
      head := Commit([head], index, Picked(true, source));
      return Ok;
    }

    method CherryPick(source: Commit) returns (o: Outcome)
      modifies this`head, this`index
      ensures Now() == PickSnapshot(old(Now()), source) && VerdictOf(o) == PickVerdict(old(Now()), source)
      ensures o.Conflict? ==> ChangeReplay.Distinct(o.files)
      ensures o != NotAMerge
    {
      if |source.parents| >= 2 {
        o := CherryPickMergeDiff(source);
      } else {
        o := CherryPickRegular(source);
      }
    }

    /** An unforced push moves the remote branch only forward, to a descendant. `reachable` says whether the
        remote answers at all. */
    method Push(force: bool, reachable: bool) returns (r: PushResult)
      modifies this`remote
      ensures r == Unreachable <==> !reachable
      ensures r == UpToDate <==> reachable && old(remote) == Some(head)
      ensures r == Pushed && !force ==> old(remote).None? || old(remote).value in Ancestors(head)
      ensures r == NonFastForward ==> !force && old(remote).Some? && old(remote).value !in Ancestors(head)
      ensures r == PushVerdict(old(remote), head, force, reachable)
      ensures remote == if r == Pushed then Some(head) else old(remote)
    {
      if !reachable {
        return Unreachable;
      }
      if remote == Some(head) {
        return UpToDate;
      }
      if !force && remote.Some? && remote.value !in Ancestors(head) {
        return NonFastForward;
      }
      remote := Some(head);
      return Pushed;
    }

    /** Picks the next commit of a replay that went well so far. */
    method PickNext(ghost start: Snapshot, cs: seq<Commit>, i: nat) returns (o: Outcome)
      requires i < |cs| && WentWell(Now(), start, cs, i)
      modifies this`head, this`index
      ensures o == Ok ==> WentWell(Now(), start, cs, i + 1)
      ensures o != Ok ==> StoppedAt(PickFailed(i, o), start, cs, Now())
    {
      ghost var before := Now();
      o := CherryPick(cs[i]);
      NextPick(before, cs, i, start, o);
    }

    /** Picks every commit in turn until one fails. */
    method PickAll(ghost start: Snapshot, cs: seq<Commit>) returns (failed: Option<RebaseOutcome>)
      requires WentWell(Now(), start, cs, 0)
      modifies this`head, this`index
      ensures failed == None ==> WentWell(Now(), start, cs, |cs|)
      ensures failed != None ==> StoppedAt(failed.value, start, cs, Now())
    {
      for i := 0 to |cs|
        invariant WentWell(Now(), start, cs, i)
      {
        var o := PickNext(start, cs, i);
        if o != Ok {
          return Some(PickFailed(i, o));
        }
      }
      return None;
    }

    /** Hard reset to `base`, then the picks. */
    method ResetAndPick(base: Commit, cs: seq<Commit>) returns (failed: Option<RebaseOutcome>)
      modifies this`head, this`index
      ensures failed == None ==> AllClean(Reset(base), cs, |cs|) && Now() == After(Reset(base), cs, |cs|)
      ensures failed != None ==> StoppedAt(failed.value, Reset(base), cs, Now())
    {
      head, index := base, base.tree;
      failed := PickAll(Reset(base), cs);
    }

    /** `base` is the tip of the remote base branch; HEAD is the checked-out head branch. The replay is
        pushed, unforced, only after every pick went through. When the branch has no merge of its own, the
        outcome is decided by the histories alone. */
    method Rebase(base: Commit, reachable: bool) returns (r: RebaseOutcome)
      modifies this
      ensures var cs := PRCommits(old(head), base);
              && (cs == [] <==> r == NothingToDo)
              && (cs == [] ==> Now() == old(Now()) && remote == old(remote))
              && (r.PickFailed? ==> StoppedAt(r, Reset(base), cs, Now()) && remote == old(remote))
              && (cs != [] && !r.PickFailed? ==>
                    && AllClean(Reset(base), cs, |cs|) && Now() == After(Reset(base), cs, |cs|)
                    && remote == (if r == Done then Some(head) else old(remote))
                    && (r == PushFailed(Unreachable) <==> !reachable)
                    && (r == PushFailed(UpToDate) <==> reachable && old(remote) == Some(head))
                    && (r == PushFailed(NonFastForward) <==>
                          reachable && old(remote).Some? && old(remote).value !in Ancestors(head))
                    && (r == Done <==>
                          && reachable && old(remote) != Some(head)
                          && (old(remote).None? || old(remote).value in Ancestors(head))))
      ensures var cs := PRCommits(old(head), base);
              cs != [] && MergeFree(old(head), Ancestors(base)) && cs[0].parents != [] ==>
                var m := cs[0].parents[0];
                && m in Ancestors(base)
                && (r.PickFailed? <==> !(Undisturbed(base.tree, m, cs, |cs|) && NoReAdd(base.tree, m, cs, |cs|)))
                && (!r.PickFailed? ==>
                      (index == ThreeWay(base.tree, TouchedBy(m, cs, |cs|), old(head).tree) <==>
                        LinksKept(base.tree, m, cs, |cs|)))
                && (!r.PickFailed? ==>
                      (head.tree == index <==> forall p :: !Uncommitted(base.tree, m, cs, |cs|, p)))
                && (!r.PickFailed? ==>
                      (head.tree == ThreeWay(base.tree, TouchedBy(m, cs, |cs|), old(head).tree) <==>
                        LinksKept(base.tree, m, cs, |cs|) && forall p :: !Uncommitted(base.tree, m, cs, |cs|, p)))
    {
      var cs := FindPRCommits(head, base);
      if |cs| == 0 {
        return NothingToDo;
      }
      ghost var before := head;
      var failed := ResetAndPick(base, cs);
      if MergeFree(before, Ancestors(base)) && cs[0].parents != [] {
        OutcomeByHistory(before, base, cs);
      }
      if failed != None {
        return failed.value;
      }
      var push := Push(false, reachable);
      return RebaseEnd(push);
    }

    method RebaseAndPush(base: Commit, reachable: bool) returns (r: RebaseOutcome)
      modifies this
      ensures r == NothingToDo <==> base == old(head)
      ensures r == BaseNotInHistory <==> base !in Ancestors(old(head))
      ensures r == NothingToDo || r == BaseNotInHistory ==> Now() == old(Now()) && remote == old(remote)
      ensures r.PickFailed? ==> remote == old(remote)
      ensures r.PickFailed? ==> StoppedAt(r, Reset(base), Reversed(Until(Visit(old(head), {}), base)), Now())
      ensures r == Done || r.PushFailed? ==>
                var cs := Reversed(Until(Visit(old(head), {}), base));
                AllClean(Reset(base), cs, |cs|) && Now() == After(Reset(base), cs, |cs|)
      ensures r == Done ==> reachable && remote == Some(head)
      ensures r.PushFailed? ==> !reachable && r.push == Unreachable && remote == old(remote)
    {
      if base == head {
        return NothingToDo;
      }
      var foundBase, commitsToRebase := CommitsSince(head, base);
      if !foundBase {
        return BaseNotInHistory;
      }
      var failed := ResetAndPick(base, commitsToRebase);
      if failed != None {
        return failed.value;
      }
      var push := Push(true, reachable);
      if push != Pushed && push != UpToDate {
        return PushFailed(push);
      }
      return Done;
    }
  }

  /** The walk of `repo.Log` down to the base hash, prepending as it goes. */
  method CommitsSince(head: Commit, base: Commit) returns (foundBase: bool, cs: seq<Commit>)
    ensures foundBase <==> base in Ancestors(head)
    ensures foundBase ==> cs == Reversed(Until(Visit(head, {}), base))
  {
    var walk, i := Visit(head, {}), 0;
    cs := [];
    VisitIsComplete(head);
    while i < |walk| && walk[i] != base
      invariant i <= |walk| && base !in walk[..i]
      invariant cs == Reversed(walk[..i])
    {
      assert walk[..i + 1] == walk[..i] + [walk[i]];
      ReversedAppend(walk[..i], walk[i]);
      cs := [walk[i]] + cs;
      i := i + 1;
    }
    assert walk[..|walk|] == walk;
    foundBase := i < |walk|;
    if foundBase {
      assert base in Members(walk);
      UntilIsPrefix(walk, base, i);
    }
  }

  function Reset(base: Commit): Snapshot {
    Snapshot(base, base.tree)
  }

  function PushVerdict(remote: Option<Commit>, head: Commit, force: bool, reachable: bool): PushResult {
    if !reachable then Unreachable
    else if remote == Some(head) then UpToDate
    else if !force && remote.Some? && remote.value !in Ancestors(head) then NonFastForward
    else Pushed
  }

  /** `Rebase` treats every push error as a failure, "already up to date" included. */
  function RebaseEnd(push: PushResult): RebaseOutcome {
    if push == Pushed then Done else PushFailed(push)
  }

  /** The first `k` picks of `cs` from `start` were clean and led to `s`. */
  ghost predicate WentWell(s: Snapshot, start: Snapshot, cs: seq<Commit>, k: nat)
    requires k <= |cs|
  {
    AllClean(start, cs, k) && s == After(start, cs, k)
  }

  /** The replay of `cs` from `start` stopped at its first unclean pick, leaving `s`. */
  ghost predicate StoppedAt(r: RebaseOutcome, start: Snapshot, cs: seq<Commit>, s: Snapshot) {
    && r.PickFailed? && r.at < |cs| && AllClean(start, cs, r.at)
    && PickVerdict(After(start, cs, r.at), cs[r.at]) == VerdictOf(r.outcome) != Clean
    && s == After(start, cs, r.at + 1) && s.head == After(start, cs, r.at).head
  }

  lemma NextPick(s: Snapshot, cs: seq<Commit>, i: nat, start: Snapshot, o: Outcome)
    requires i < |cs| && AllClean(start, cs, i) && s == After(start, cs, i)
    requires o != NotAMerge && VerdictOf(o) == PickVerdict(s, cs[i])
    ensures After(start, cs, i + 1) == PickSnapshot(s, cs[i])
    ensures o == Ok ==> AllClean(start, cs, i + 1)
    ensures o != Ok ==> StoppedAt(PickFailed(i, o), start, cs, PickSnapshot(s, cs[i]))
  {
    if o != Ok { FailedPickKeepsHead(s, cs[i], ""); }
  }

  lemma {:induction false} ReversedAppend(cs: seq<Commit>, c: Commit)
    ensures Reversed(cs + [c]) == [c] + Reversed(cs)
  {
    if cs != [] {
      assert (cs + [c])[1..] == cs[1..] + [c];
      ReversedAppend(cs[1..], c);
    }
  }

  // ----- what a rebase of a branch without merges of its own amounts to

  lemma PRCommitsAreOnTop(head: Commit, base: Commit, cs: seq<Commit>)
    requires MergeFree(head, Ancestors(base)) && cs == PRCommits(head, base) && cs != [] && cs[0].parents != []
    ensures OnTopOf(cs[0].parents[0], cs) && cs[0].parents[0] in Ancestors(base)
    ensures TreeAt(cs[0].parents[0], cs, |cs|) == head.tree
  {
    LinearPRCommits(head, base, cs);
    forall i | 0 <= i < |cs| ensures cs[i].parents != [] {
      assert i > 0 ==> cs[i].parents == [cs[i - 1]];
    }
  }

  lemma OutcomeByHistory(head: Commit, base: Commit, cs: seq<Commit>)
    requires MergeFree(head, Ancestors(base)) && cs == PRCommits(head, base) && cs != [] && cs[0].parents != []
    ensures var m, n := cs[0].parents[0], |cs|;
            && m in Ancestors(base)
            && (AllClean(Reset(base), cs, n) <==> Undisturbed(base.tree, m, cs, n) && NoReAdd(base.tree, m, cs, n))
            && (AllClean(Reset(base), cs, n) ==>
                  var s := After(Reset(base), cs, n);
                  && (s.index == ThreeWay(base.tree, TouchedBy(m, cs, n), head.tree)
                      <==> LinksKept(base.tree, m, cs, n))
                  && (s.head.tree == s.index <==> forall p :: !Uncommitted(base.tree, m, cs, n, p))
                  && (s.head.tree == ThreeWay(base.tree, TouchedBy(m, cs, n), head.tree) <==>
                        LinksKept(base.tree, m, cs, n) && forall p :: !Uncommitted(base.tree, m, cs, n, p)))
  {
    PRCommitsAreOnTop(head, base, cs);
    ReplaySucceedsIff(base, cs[0].parents[0], cs, |cs|);
    if AllClean(Reset(base), cs, |cs|) { ReplayResult(base, cs[0].parents[0], cs); }
  }

  /** Rebasing a branch that has no merge and no delete-only commit of its own, `m` being the commit of base it
      forks from: it succeeds exactly when every commit finds what it expects, and HEAD is then the three-way
      merge of base and the branch exactly when no submodule link was skipped. For a branch of files only it
      succeeds exactly when base left every touched path absent or as it was in `m`, and always gives the merge. */
  lemma RebaseIsThreeWayMerge(head: Commit, base: Commit, cs: seq<Commit>, m: Commit)
    requires MergeFree(head, Ancestors(base)) && cs == PRCommits(head, base) && cs != [] && cs[0].parents == [m]
    requires NoBareDeletion(m, cs)
    ensures m in Ancestors(base) && cs[|cs| - 1] == head
    ensures AllClean(Reset(base), cs, |cs|) <==> Undisturbed(base.tree, m, cs, |cs|)
    ensures AllClean(Reset(base), cs, |cs|) ==>
              (After(Reset(base), cs, |cs|).head.tree == ThreeWay(base.tree, TouchedBy(m, cs, |cs|), head.tree)
               <==> LinksKept(base.tree, m, cs, |cs|))
    ensures FilesOnly(m, cs) ==>
              && LinksKept(base.tree, m, cs, |cs|)
              && (AllClean(Reset(base), cs, |cs|) <==>
                    forall p :: p in TouchedBy(m, cs, |cs|) && p in base.tree ==> Get(base.tree, p) == Get(m.tree, p))
  {
    PRCommitsAreOnTop(head, base, cs);
    LinearPRCommits(head, base, cs);
    FoldOfPicksIsThreeWayMerge(base, m, cs);
  }

  /** With any commits at all, deletions included: the same statement with the two conditions the code
      really needs. */
  lemma RebaseSucceedsIff(head: Commit, base: Commit, cs: seq<Commit>, m: Commit)
    requires MergeFree(head, Ancestors(base)) && cs == PRCommits(head, base) && cs != [] && cs[0].parents == [m]
    ensures AllClean(Reset(base), cs, |cs|)
            <==> Undisturbed(base.tree, m, cs, |cs|) && NoReAdd(base.tree, m, cs, |cs|)
    ensures AllClean(Reset(base), cs, |cs|) ==>
              (After(Reset(base), cs, |cs|).head.tree == ThreeWay(base.tree, TouchedBy(m, cs, |cs|), head.tree)
               <==> LinksKept(base.tree, m, cs, |cs|) && forall p :: !Uncommitted(base.tree, m, cs, |cs|, p))
    ensures FilesOnly(m, cs) ==>
              && LinksKept(base.tree, m, cs, |cs|)
              && (Undisturbed(base.tree, m, cs, |cs|) <==> TargetUnchanged(base.tree, m, cs, |cs|))
  {
    OutcomeByHistory(head, base, cs);
    if FilesOnly(m, cs) { FilesOnlyByEndPoints(base.tree, m, cs, |cs|); }
  }

  /** Histories without a common commit cannot be rebased: some commit to pick has no parent to diff with. */
  lemma UnrelatedHistoriesFail(head: Commit, base: Commit, cs: seq<Commit>)
    requires cs == PRCommits(head, base) && Ancestors(head) !! Ancestors(base)
    ensures Members(cs) == Ancestors(head) && !AllClean(Reset(base), cs, |cs|)
    ensures exists i :: 0 <= i < |cs| && PickVerdict(After(Reset(base), cs, i), cs[i]) == Rootless
  {
    PRCommitsSound(head, base);
    VisitIsComplete(head);
    var order := Visit(head, {});
    assert base in Ancestors(base);
    assert forall i :: 0 <= i < |order| ==> order[i] in Members(order);
    assert Ancestors(head) - Ancestors(base) == Ancestors(head);
    var root := RootOf(head);
    assert root in Members(cs);
    var i :| 0 <= i < |cs| && cs[i] == root;
    assert PickVerdict(After(Reset(base), cs, i), cs[i]) == Rootless;
  }

  /** `RebaseAndPush` replays a branch without merges of its own onto its own ancestor: without delete-only
      commits and submodule links it never clashes and HEAD gets the branch's own tree back. With them, both
      have an exact condition. */
  lemma RebaseAndPushKeepsTree(head: Commit, base: Commit, cs: seq<Commit>)
    requires MergeFree(head, Ancestors(base)) && base in Ancestors(head) && base != head
    requires cs == Reversed(Until(Visit(head, {}), base))
    ensures cs != []
    ensures AllClean(Reset(base), cs, |cs|)
            <==> Undisturbed(base.tree, base, cs, |cs|) && NoReAdd(base.tree, base, cs, |cs|)
    ensures AllClean(Reset(base), cs, |cs|) ==>
              (After(Reset(base), cs, |cs|).head.tree == head.tree <==>
                LinksKept(base.tree, base, cs, |cs|) && forall p :: !Uncommitted(base.tree, base, cs, |cs|, p))
    ensures FilesOnly(base, cs) && NoBareDeletion(base, cs) ==>
              AllClean(Reset(base), cs, |cs|) && After(Reset(base), cs, |cs|).head.tree == head.tree
  {
    WalkToBase(head, base, cs);
    LinearPRCommits(head, base, cs);
    if head in Ancestors(base) { AncestorsAreOrdered(head, base); }
    PRCommitsAreOnTop(head, base, cs);
    ReplayInPlace(base, cs);
  }

  lemma SomeRootlessIff(start: Snapshot, cs: seq<Commit>, members: set<Commit>)
    requires members == Members(cs)
    ensures (exists i :: 0 <= i < |cs| && PickVerdict(After(start, cs, i), cs[i]) == Rootless)
            <==> exists root :: root in members && root.parents == []
  {
    forall i | 0 <= i < |cs|
      ensures cs[i] in members && (PickVerdict(After(start, cs, i), cs[i]) == Rootless <==> cs[i].parents == [])
    {
    }
    if root :| root in members && root.parents == [] {
      var i :| 0 <= i < |cs| && cs[i] == root;
      assert PickVerdict(After(start, cs, i), cs[i]) == Rootless;
    }
  }

  /** What `RebaseAndPush` walks over holds a commit that cannot be picked, for want of a parent, exactly when the
      way to base passes one. */
  lemma WalkMeetsRootIff(head: Commit, base: Commit, cs: seq<Commit>)
    requires base in Ancestors(head) && cs == Reversed(Until(Visit(head, {}), base))
    ensures (exists i :: 0 <= i < |cs| && PickVerdict(After(Reset(base), cs, i), cs[i]) == Rootless)
            <==> exists root :: root in LeftOf(head, base) && root.parents == []
  {
    PassedBefore(head, base);
    ReversedMembers(Until(Visit(head, {}), base));
    SomeRootlessIff(Reset(base), cs, LeftOf(head, base));
  }

  /** So it does below a merge whose first parent is a side branch, although base is the other parent. */
  lemma SideBranchFirstMeetsRoot()
    ensures var root := Commit([], map[], Text("root"));
            var base := Commit([root], map[], Text("base"));
            var side := Commit([root], map[], Text("side"));
            var head := Commit([side, base], map[], Text("merge"));
            var cs := Reversed(Until(Visit(head, {}), base));
            exists i :: 0 <= i < |cs| && PickVerdict(After(Reset(base), cs, i), cs[i]) == Rootless
  {
    var root := Commit([], map[], Text("root"));
    var base := Commit([root], map[], Text("base"));
    var side := Commit([root], map[], Text("side"));
    var head := Commit([side, base], map[], Text("merge"));
    assert root.message != base.message && base.message != side.message && side.message != root.message;
    assert [side, base][1..] == [base] && [root][1..] == [] && [base][1..] == [];
    assert Ancestors(root) == {root} && AncestorsOfAll([root]) == {root};
    assert Ancestors(side) == {side, root} && base !in Ancestors(side);
    assert base in Ancestors(base) && base in AncestorsOfAll([base]) && base in Ancestors(head);
    assert head.message != base.message;
    assert root in LeftOf(head, base);
    WalkMeetsRootIff(head, base, Reversed(Until(Visit(head, {}), base)));
  }

  // ----- pushing the result

  /** HEAD after each pick: unchanged, or a new child quoting the commit it was made from. */
  ghost predicate Lineage(hs: seq<Commit>, cs: seq<Commit>) {
    && |hs| == |cs| + 1
    && forall i :: 0 <= i < |cs| ==>
         || hs[i + 1] == hs[i]
         || (hs[i + 1].parents == [hs[i]] && hs[i + 1].message.Picked? && hs[i + 1].message.original == cs[i])
  }

  lemma LineageStep(hs: seq<Commit>, cs: seq<Commit>, h: Commit, c: Commit)
    requires Lineage(hs, cs)
    requires h == hs[|cs|] || (h.parents == [hs[|cs|]] && h.message.Picked? && h.message.original == c)
    ensures Lineage(hs + [h], cs + [c])
  {
  }

  lemma {:induction false} HeadsFormLineage(s: Snapshot, cs: seq<Commit>, k: nat) returns (hs: seq<Commit>)
    requires k <= |cs|
    ensures Lineage(hs, cs[..k]) && hs[0] == s.head && hs[k] == After(s, cs, k).head
  {
    if k == 0 {
      hs := [s.head];
    } else {
      hs := HeadsFormLineage(s, cs, k - 1);
      var h := PickSnapshot(After(s, cs, k - 1), cs[k - 1]).head;
      LineageStep(hs, cs[..k - 1], h, cs[k - 1]);
      assert cs[..k - 1] + [cs[k - 1]] == cs[..k];
      hs := hs + [h];
    }
  }

  /** Replayed commits never coincide with the originals they stand on top of. */
  lemma {:induction false} OriginalsAreNotReplayed(hs: seq<Commit>, cs: seq<Commit>, i: nat, l: nat)
    requires Lineage(hs, cs) && i <= l + 1 && l < |cs|
    requires forall j :: 0 <= j < |cs| ==> cs[j] != hs[0]
    requires forall j :: 0 < j < |cs| ==> cs[j].parents == [cs[j - 1]]
    ensures cs[l] != hs[i]
  {
    if i > 0 {
      if hs[i] == hs[i - 1] {
        OriginalsAreNotReplayed(hs, cs, i - 1, l);
      } else if i - 1 < l {
        OriginalsAreNotReplayed(hs, cs, i - 1, l - 1);
      } else {
        assert hs[i].message.original == cs[l];
      }
    }
  }

  lemma {:induction false} OriginalNotInReplay(hs: seq<Commit>, cs: seq<Commit>, k: nat)
    requires Lineage(hs, cs) && k <= |cs| && cs != []
    requires forall j :: 0 <= j < |cs| ==> cs[j] !in Ancestors(hs[0])
    requires forall j :: 0 < j < |cs| ==> cs[j].parents == [cs[j - 1]]
    ensures cs[|cs| - 1] !in Ancestors(hs[k])
  {
    if k > 0 {
      OriginalNotInReplay(hs, cs, k - 1);
      if hs[k] != hs[k - 1] {
        OneParent(hs[k], hs[k - 1]);
        assert hs[0] in Ancestors(hs[0]);
        OriginalsAreNotReplayed(hs, cs, k, |cs| - 1);
      }
    }
  }

  /** `Rebase` pushes without force, so while the remote branch still is where the local one was, the replay of a
      branch without merges of its own is always refused; the forced push of `RebaseAndPush` is not. */
  lemma UnforcedPushIsRefused(head: Commit, base: Commit, cs: seq<Commit>)
    requires MergeFree(head, Ancestors(base)) && cs == PRCommits(head, base) && cs != []
    ensures var replayed := After(Reset(base), cs, |cs|).head;
            && PushVerdict(Some(head), replayed, false, true) == NonFastForward
            && PushVerdict(Some(head), replayed, true, true) == Pushed
  {
    LinearPRCommits(head, base, cs);
    forall j | 0 <= j < |cs| ensures cs[j] !in Ancestors(base) {
      assert cs[j] in Members(cs);
    }
    var hs := HeadsFormLineage(Reset(base), cs, |cs|);
    assert cs[..|cs|] == cs;
    OriginalNotInReplay(hs, cs, |cs|);
    var replayed := After(Reset(base), cs, |cs|).head;
    assert replayed in Ancestors(replayed);
  }
}
