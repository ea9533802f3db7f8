/** Replaying a whole chain of commits onto another base: when it goes through, and what it leaves in
    HEAD and in the index, compared with one three-way merge of the end points. */
module Rebases {
  import opened Options
  import opened Trees
  import opened Commits
  import opened ChangeReplay
  import opened CherryPicks

  /** Each commit sits on the one before it through its first parent; the first sits on `m`. */
  ghost predicate OnTopOf(m: Commit, cs: seq<Commit>) {
    && (forall i :: 0 <= i < |cs| ==> cs[i].parents != [])
    && (cs != [] ==> cs[0].parents[0] == m)
    && (forall i :: 0 < i < |cs| ==> cs[i].parents[0] == cs[i - 1])
  }

  /** The history's tree after its first `i` commits. */
  function TreeAt(m: Commit, cs: seq<Commit>, i: nat): Tree
    requires i <= |cs|
  {
    if i == 0 then m.tree else cs[i - 1].tree
  }

  function TouchedAt(m: Commit, cs: seq<Commit>, i: nat): set<Path>
    requires i < |cs|
  {
    Touched(TreeAt(m, cs, i), TreeAt(m, cs, i + 1))
  }

  function TouchedBy(m: Commit, cs: seq<Commit>, k: nat): set<Path>
    requires k <= |cs|
  {
    if k == 0 then {} else TouchedBy(m, cs, k - 1) + TouchedAt(m, cs, k - 1)
  }

  /** The state after replaying the first `k` commits, whatever their verdicts. */
  function After(s: Snapshot, cs: seq<Commit>, k: nat): Snapshot
    requires k <= |cs|
  {
    if k == 0 then s else PickSnapshot(After(s, cs, k - 1), cs[k - 1])
  }

  ghost predicate AllClean(s: Snapshot, cs: seq<Commit>, k: nat)
    requires k <= |cs|
  {
    forall i :: 0 <= i < k ==> PickVerdict(After(s, cs, i), cs[i]) == Clean
  }

  /** One three-way merge: `t` on `paths`, `b` elsewhere. */
  function ThreeWay(b: Tree, paths: set<Path>, t: Tree): Tree {
    map p | p in b.Keys + t.Keys && (if p in paths then p in t else p in b) :: if p in paths then t[p] else b[p]
  }

  function Merged(b: Tree, m: Commit, cs: seq<Commit>, k: nat): Tree
    requires k <= |cs|
  {
    ThreeWay(b, TouchedBy(m, cs, k), TreeAt(m, cs, k))
  }

  predicate HasLink(t: Tree, p: Path) {
    p in t && t[p].Gitlink?
  }

  /** What a replay onto `b` has at `p` after `k` commits: the last file or deletion the chain made there. Paths
      the chain did not touch stay with the target, and submodule links the chain made are skipped. */
  function Standing(b: Tree, m: Commit, cs: seq<Commit>, k: nat, p: Path): Option<Entry>
    requires k <= |cs|
  {
    if k == 0 then Get(b, p)
    else if p in TouchedAt(m, cs, k - 1) && !HasLink(TreeAt(m, cs, k), p) then Get(TreeAt(m, cs, k), p)
    else Standing(b, m, cs, k - 1, p)
  }

  /** Commit `i` writes no file: all it does is to delete files and to move submodule links. */
  predicate Bare(m: Commit, cs: seq<Commit>, i: nat)
    requires i < |cs|
  {
    Applicable(TreeAt(m, cs, i), TreeAt(m, cs, i + 1)) == {}
  }

  /** The number of commits up to and including the last of the first `k` that writes a file. */
  function LastWriter(m: Commit, cs: seq<Commit>, k: nat): (j: nat)
    requires k <= |cs|
    ensures j <= k
  {
    if k == 0 then 0 else if Bare(m, cs, k - 1) then LastWriter(m, cs, k - 1) else k
  }

  ghost predicate BareRun(m: Commit, cs: seq<Commit>, from: nat, to: nat)
    requires to <= |cs|
  {
    forall l :: from <= l < to ==> Bare(m, cs, l)
  }

  ghost predicate Deletes(m: Commit, cs: seq<Commit>, d: nat, p: Path)
    requires d < |cs|
  {
    p in TreeAt(m, cs, d) && p !in TreeAt(m, cs, d + 1)
  }

  /** Commit `d` deletes `p` while the rebased branch has something there. */
  ghost predicate DeletesLive(b: Tree, m: Commit, cs: seq<Commit>, d: nat, p: Path)
    requires d < |cs|
  {
    Deletes(m, cs, d, p) && Standing(b, m, cs, d, p).Some?
  }

  /** Before commit `i`, a deletion of `p` is staged but in no commit yet. */
  ghost predicate Uncommitted(b: Tree, m: Commit, cs: seq<Commit>, i: nat, p: Path)
    requires i <= |cs|
  {
    exists d :: 0 <= d < i && BareRun(m, cs, d, i) && DeletesLive(b, m, cs, d, p)
  }

  /** Whenever a commit changes a path, the replay has there either nothing or what the commit changes. */
  ghost predicate Undisturbed(b: Tree, m: Commit, cs: seq<Commit>, k: nat)
    requires k <= |cs|
  {
    forall i, p :: 0 <= i < k && p in TouchedAt(m, cs, i) && Standing(b, m, cs, i, p).Some? ==>
      Standing(b, m, cs, i, p) == Get(TreeAt(m, cs, i), p)
  }

  /** No commit brings back a path whose deletion is still uncommitted. */
  ghost predicate NoReAdd(b: Tree, m: Commit, cs: seq<Commit>, k: nat)
    requires k <= |cs|
  {
    forall i, p :: 0 <= i < k && Uncommitted(b, m, cs, i, p) ==> p !in TreeAt(m, cs, i + 1)
  }

  /** Every touched path the chain leaves as a submodule link has that link in the replay, too. */
  ghost predicate LinksKept(b: Tree, m: Commit, cs: seq<Commit>, k: nat)
    requires k <= |cs|
  {
    forall p :: p in TouchedBy(m, cs, k) && HasLink(TreeAt(m, cs, k), p) ==>
      Standing(b, m, cs, k, p) == Get(TreeAt(m, cs, k), p)
  }

  lemma ParentTree(m: Commit, cs: seq<Commit>, i: nat)
    requires OnTopOf(m, cs) && i < |cs|
    ensures cs[i].parents != [] && cs[i].parents[0].tree == TreeAt(m, cs, i)
  {
  }

  // ----- what the fold leaves behind

  lemma ThreeWayGet(b: Tree, paths: set<Path>, t: Tree)
    ensures forall p :: Get(ThreeWay(b, paths, t), p) == if p in paths then Get(t, p) else Get(b, p)
  {
  }

  /** As long as every pick is clean, the index stands where the chain's last file or deletion left each path,
      and HEAD where they were after the last commit that wrote a file. */
  lemma {:induction false} FoldStands(base: Commit, m: Commit, cs: seq<Commit>, k: nat)
    requires k <= |cs| && OnTopOf(m, cs) && AllClean(Snapshot(base, base.tree), cs, k)
    ensures var s := After(Snapshot(base, base.tree), cs, k);
            && (forall p :: Get(s.index, p) == Standing(base.tree, m, cs, k, p))
            && (forall p :: Get(s.head.tree, p) == Standing(base.tree, m, cs, LastWriter(m, cs, k), p))
  {
    if k > 0 {
      FoldStands(base, m, cs, k - 1);
      var s, source := After(Snapshot(base, base.tree), cs, k - 1), cs[k - 1];
      ParentTree(m, cs, k - 1);
      assert PickVerdict(s, source) == Clean;
      assert TouchedAt(m, cs, k - 1) - Clashes(TreeAt(m, cs, k - 1), source.tree, s.head.tree)
             == TouchedAt(m, cs, k - 1);
      OverlayGet(s.index, TouchedAt(m, cs, k - 1), source.tree);
    }
  }

  /** An untouched path stands as in the target, a touched one as in the chain unless it is a link there. */
  lemma {:induction false} StandingIs(b: Tree, m: Commit, cs: seq<Commit>, k: nat, p: Path)
    requires k <= |cs|
    ensures p !in TouchedBy(m, cs, k) ==>
              Standing(b, m, cs, k, p) == Get(b, p) && Get(TreeAt(m, cs, k), p) == Get(m.tree, p)
    ensures p in TouchedBy(m, cs, k) && !HasLink(TreeAt(m, cs, k), p) ==>
              Standing(b, m, cs, k, p) == Get(TreeAt(m, cs, k), p)
  {
    if k > 0 { StandingIs(b, m, cs, k - 1, p); }
  }

  /** A tree that holds what stands is the three-way merge exactly when no link was skipped. */
  lemma StandingIsMerged(b: Tree, m: Commit, cs: seq<Commit>, k: nat, t: Tree)
    requires k <= |cs| && forall p :: Get(t, p) == Standing(b, m, cs, k, p)
    ensures t == Merged(b, m, cs, k) <==> LinksKept(b, m, cs, k)
  {
    ThreeWayGet(b, TouchedBy(m, cs, k), TreeAt(m, cs, k));
    forall p ensures Get(Merged(b, m, cs, k), p) ==
                     if p in TouchedBy(m, cs, k) then Get(TreeAt(m, cs, k), p) else Get(b, p) {}
    forall p { StandingIs(b, m, cs, k, p); }
    if LinksKept(b, m, cs, k) {
      SameTree(t, Merged(b, m, cs, k));
    }
  }

  /** The same as one three-way merge: of everything replayed so far in the index, and of everything up to the
      last commit that wrote a file in HEAD, each exactly as long as no link was skipped. */
  lemma FoldIsMerge(base: Commit, m: Commit, cs: seq<Commit>, k: nat)
    requires k <= |cs| && OnTopOf(m, cs) && AllClean(Snapshot(base, base.tree), cs, k)
    ensures var s, j := After(Snapshot(base, base.tree), cs, k), LastWriter(m, cs, k);
            && (s.index == Merged(base.tree, m, cs, k) <==> LinksKept(base.tree, m, cs, k))
            && (s.head.tree == Merged(base.tree, m, cs, j) <==> LinksKept(base.tree, m, cs, j))
  {
    var s := After(Snapshot(base, base.tree), cs, k);
    FoldStands(base, m, cs, k);
    StandingIsMerged(base.tree, m, cs, k, s.index);
    StandingIsMerged(base.tree, m, cs, LastWriter(m, cs, k), s.head.tree);
  }

  // ----- when it goes through

  lemma {:induction false} TouchedStays(m: Commit, cs: seq<Commit>, j: nat, k: nat, p: Path)
    requires j <= k <= |cs| && p in TouchedBy(m, cs, j)
    ensures p in TouchedBy(m, cs, k)
    decreases k
  {
    if j < k { TouchedStays(m, cs, j, k - 1, p); }
  }

  lemma {:induction false} LastWriterRun(m: Commit, cs: seq<Commit>, k: nat)
    requires k <= |cs|
    ensures BareRun(m, cs, LastWriter(m, cs, k), k)
    ensures forall d :: 0 <= d <= k && BareRun(m, cs, d, k) ==> LastWriter(m, cs, k) <= d
  {
    if k > 0 {
      LastWriterRun(m, cs, k - 1);
      forall d | 0 <= d <= k && BareRun(m, cs, d, k) ensures LastWriter(m, cs, k) <= d {
        if d < k {
          assert Bare(m, cs, k - 1);
          assert BareRun(m, cs, d, k - 1);
        }
      }
    }
  }

  lemma BareStep(b: Tree, m: Commit, cs: seq<Commit>, i: nat, p: Path)
    requires i < |cs| && Bare(m, cs, i)
    ensures Standing(b, m, cs, i + 1, p) ==
            if DeletesLive(b, m, cs, i, p) then None else Standing(b, m, cs, i, p)
  {
    assert p !in Applicable(TreeAt(m, cs, i), TreeAt(m, cs, i + 1));
  }

  /** Commits that write nothing can only take away what stood before them. */
  lemma {:induction false} AcrossBare(b: Tree, m: Commit, cs: seq<Commit>, j: nat, k: nat, p: Path)
      returns (gone: bool)
    requires j <= k <= |cs| && BareRun(m, cs, j, k)
    ensures gone <==> exists d :: j <= d < k && DeletesLive(b, m, cs, d, p)
    ensures Standing(b, m, cs, k, p) == if gone then None else Standing(b, m, cs, j, p)
    ensures gone ==> Standing(b, m, cs, j, p).Some?
    decreases k
  {
    if j == k {
      gone := false;
    } else {
      var before := AcrossBare(b, m, cs, j, k - 1, p);
      BareStep(b, m, cs, k - 1, p);
      gone := before || DeletesLive(b, m, cs, k - 1, p);
    }
  }

  /** The staged but uncommitted deletions are exactly the paths HEAD has and the index has not. */
  lemma UncommittedIsStale(b: Tree, m: Commit, cs: seq<Commit>, k: nat, p: Path) returns (u: bool)
    requires k <= |cs|
    ensures u <==> Uncommitted(b, m, cs, k, p)
    ensures var inHead, inIndex := Standing(b, m, cs, LastWriter(m, cs, k), p), Standing(b, m, cs, k, p);
            (u <==> inHead.Some? && inIndex.None?) && (!u ==> inHead == inIndex)
  {
    LastWriterRun(m, cs, k);
    u := AcrossBare(b, m, cs, LastWriter(m, cs, k), k, p);
    if d :| LastWriter(m, cs, k) <= d < k && DeletesLive(b, m, cs, d, p) {
      assert BareRun(m, cs, d, k);
    }
  }

  /** Commit `k` changes a path where something else stands than it expects, or it brings a path back whose
      deletion is staged but uncommitted. */
  ghost predicate Blocked(b: Tree, m: Commit, cs: seq<Commit>, k: nat, p: Path)
    requires k < |cs|
  {
    || (p in TouchedAt(m, cs, k) && Standing(b, m, cs, k, p).Some?
        && Standing(b, m, cs, k, p) != Get(TreeAt(m, cs, k), p))
    || (Uncommitted(b, m, cs, k, p) && p in TreeAt(m, cs, k + 1))
  }

  lemma StaysGone(b: Tree, m: Commit, cs: seq<Commit>, k: nat, p: Path)
    requires k <= |cs| && NoReAdd(b, m, cs, k) && Uncommitted(b, m, cs, k, p)
    ensures p !in TreeAt(m, cs, k)
  {
    var d :| 0 <= d < k && BareRun(m, cs, d, k) && DeletesLive(b, m, cs, d, p);
    if d < k - 1 {
      assert BareRun(m, cs, d, k - 1);
      assert Uncommitted(b, m, cs, k - 1, p);
    }
  }

  lemma StepClash(b: Tree, m: Commit, cs: seq<Commit>, k: nat, p: Path, head: Tree)
    requires k < |cs| && NoReAdd(b, m, cs, k)
    requires Get(head, p) == Standing(b, m, cs, LastWriter(m, cs, k), p)
    ensures p in Clashes(TreeAt(m, cs, k), TreeAt(m, cs, k + 1), head) <==> Blocked(b, m, cs, k, p)
  {
    var u := UncommittedIsStale(b, m, cs, k, p);
    if u { StaysGone(b, m, cs, k, p); }
  }

  lemma VerdictByPath(s: Snapshot, source: Commit)
    requires source.parents != []
    ensures PickVerdict(s, source) == Clean
            <==> forall p :: p !in Clashes(source.parents[0].tree, source.tree, s.head.tree)
  {
    var clashes := Clashes(source.parents[0].tree, source.tree, s.head.tree);
    if clashes != {} {
      var p :| p in clashes;
    }
  }

  lemma StepClashInRun(base: Commit, m: Commit, cs: seq<Commit>, k: nat, p: Path)
    requires k < |cs| && OnTopOf(m, cs)
    requires AllClean(Snapshot(base, base.tree), cs, k) && NoReAdd(base.tree, m, cs, k)
    ensures cs[k].parents != []
    ensures p in Clashes(cs[k].parents[0].tree, cs[k].tree, After(Snapshot(base, base.tree), cs, k).head.tree)
            <==> Blocked(base.tree, m, cs, k, p)
  {
    ParentTree(m, cs, k);
    FoldStands(base, m, cs, k);
    StepClash(base.tree, m, cs, k, p, After(Snapshot(base, base.tree), cs, k).head.tree);
  }

  /** After a clean replay of `k` commits the next pick is clean exactly when no path blocks it. */
  lemma StepVerdict(base: Commit, m: Commit, cs: seq<Commit>, k: nat)
    requires k < |cs| && OnTopOf(m, cs)
    requires AllClean(Snapshot(base, base.tree), cs, k) && NoReAdd(base.tree, m, cs, k)
    ensures PickVerdict(After(Snapshot(base, base.tree), cs, k), cs[k]) == Clean
            <==> forall p :: !Blocked(base.tree, m, cs, k, p)
  {
    ParentTree(m, cs, k);
    VerdictByPath(After(Snapshot(base, base.tree), cs, k), cs[k]);
    forall p { StepClashInRun(base, m, cs, k, p); }
  }

  lemma ConditionStep(b: Tree, m: Commit, cs: seq<Commit>, k: nat)
    requires k < |cs|
    ensures Undisturbed(b, m, cs, k + 1) && NoReAdd(b, m, cs, k + 1)
            <==> Undisturbed(b, m, cs, k) && NoReAdd(b, m, cs, k) && forall p :: !Blocked(b, m, cs, k, p)
  {
    if Undisturbed(b, m, cs, k) && NoReAdd(b, m, cs, k) && forall p :: !Blocked(b, m, cs, k, p) {
      forall i, p | 0 <= i < k + 1 && p in TouchedAt(m, cs, i) && Standing(b, m, cs, i, p).Some?
        ensures Standing(b, m, cs, i, p) == Get(TreeAt(m, cs, i), p)
      {
        assert i == k ==> !Blocked(b, m, cs, k, p);
      }
      forall i, p | 0 <= i < k + 1 && Uncommitted(b, m, cs, i, p) ensures p !in TreeAt(m, cs, i + 1) {
        assert i == k ==> !Blocked(b, m, cs, k, p);
      }
    }
  }

  /** A replay of any chain onto `base` goes through exactly when every commit finds, on each path it changes,
      nothing or what it expects, and none brings back a path whose deletion is still uncommitted. */
  lemma {:induction false} ReplaySucceedsIff(base: Commit, m: Commit, cs: seq<Commit>, k: nat)
    requires k <= |cs| && OnTopOf(m, cs)
    ensures AllClean(Snapshot(base, base.tree), cs, k)
            <==> Undisturbed(base.tree, m, cs, k) && NoReAdd(base.tree, m, cs, k)
  {
    if k > 0 {
      ReplaySucceedsIff(base, m, cs, k - 1);
      if AllClean(Snapshot(base, base.tree), cs, k - 1) {
        StepVerdict(base, m, cs, k - 1);
      }
      ConditionStep(base.tree, m, cs, k - 1);
    }
  }

  /** HEAD holds the merge exactly when no link was skipped and no deletion is left uncommitted. */
  lemma HeadIsMerged(b: Tree, m: Commit, cs: seq<Commit>, head: Tree, index: Tree)
    requires NoReAdd(b, m, cs, |cs|)
    requires forall p :: Get(index, p) == Standing(b, m, cs, |cs|, p)
    requires forall p :: Get(head, p) == Standing(b, m, cs, LastWriter(m, cs, |cs|), p)
    ensures head == index <==> forall p :: !Uncommitted(b, m, cs, |cs|, p)
    ensures head == Merged(b, m, cs, |cs|) <==>
              LinksKept(b, m, cs, |cs|) && forall p :: !Uncommitted(b, m, cs, |cs|, p)
  {
    var n := |cs|;
    StandingIsMerged(b, m, cs, n, index);
    if p :| Uncommitted(b, m, cs, n, p) {
      UncommittedIsNotMerged(b, m, cs, p);
      var u := UncommittedIsStale(b, m, cs, n, p);
      assert Get(head, p).Some? && Get(index, p).None?;
    } else {
      forall p ensures Get(head, p) == Get(index, p) { var u := UncommittedIsStale(b, m, cs, n, p); }
      SameTree(head, index);
    }
  }

  lemma UncommittedIsNotMerged(b: Tree, m: Commit, cs: seq<Commit>, p: Path)
    requires NoReAdd(b, m, cs, |cs|) && Uncommitted(b, m, cs, |cs|, p)
    ensures p !in Merged(b, m, cs, |cs|)
  {
    var n := |cs|;
    var d :| 0 <= d < n && BareRun(m, cs, d, n) && DeletesLive(b, m, cs, d, p);
    assert p in TouchedBy(m, cs, d + 1);
    TouchedStays(m, cs, d + 1, n, p);
    StaysGone(b, m, cs, n, p);
    ThreeWayGet(b, TouchedBy(m, cs, n), TreeAt(m, cs, n));
    assert Get(Merged(b, m, cs, n), p) == None;
  }

  /** After a replay that went through, the index is the three-way merge exactly when no link was skipped; HEAD is
      the index exactly when the chain does not end in uncommitted deletions, and the merge exactly when both
      hold. */
  lemma ReplayResult(base: Commit, m: Commit, cs: seq<Commit>)
    requires OnTopOf(m, cs) && AllClean(Snapshot(base, base.tree), cs, |cs|)
    ensures var s := After(Snapshot(base, base.tree), cs, |cs|);
            && (forall p :: Get(s.index, p) == Standing(base.tree, m, cs, |cs|, p))
            && (s.index == Merged(base.tree, m, cs, |cs|) <==> LinksKept(base.tree, m, cs, |cs|))
            && (s.head.tree == s.index <==> forall p :: !Uncommitted(base.tree, m, cs, |cs|, p))
            && (s.head.tree == Merged(base.tree, m, cs, |cs|) <==>
                  LinksKept(base.tree, m, cs, |cs|) && forall p :: !Uncommitted(base.tree, m, cs, |cs|, p))
  {
    var s := After(Snapshot(base, base.tree), cs, |cs|);
    FoldStands(base, m, cs, |cs|);
    ReplaySucceedsIff(base, m, cs, |cs|);
    StandingIsMerged(base.tree, m, cs, |cs|, s.index);
    HeadIsMerged(base.tree, m, cs, s.head.tree, s.index);
  }

  // ----- chains of files only

  /** No commit of the chain adds or moves a submodule link. */
  ghost predicate FilesOnly(m: Commit, cs: seq<Commit>) {
    forall i, p :: 0 <= i < |cs| && p in TouchedAt(m, cs, i) ==> !HasLink(TreeAt(m, cs, i + 1), p)
  }

  /** The target left every path the first `k` commits touch absent or as it was at `m`. */
  ghost predicate TargetUnchanged(b: Tree, m: Commit, cs: seq<Commit>, k: nat)
    requires k <= |cs|
  {
    forall p :: p in TouchedBy(m, cs, k) && p in b ==> Get(b, p) == Get(m.tree, p)
  }

  lemma {:induction false} FirstTouch(m: Commit, cs: seq<Commit>, k: nat, p: Path) returns (i: nat)
    requires k <= |cs| && p in TouchedBy(m, cs, k)
    ensures i < k && p !in TouchedBy(m, cs, i) && p in TouchedAt(m, cs, i)
  {
    if p in TouchedBy(m, cs, k - 1) {
      i := FirstTouch(m, cs, k - 1, p);
    } else {
      i := k - 1;
    }
  }

  lemma {:induction false} NoLinkWhereTouched(m: Commit, cs: seq<Commit>, k: nat, p: Path)
    requires k <= |cs| && FilesOnly(m, cs) && p in TouchedBy(m, cs, k)
    ensures !HasLink(TreeAt(m, cs, k), p)
  {
    if p !in TouchedAt(m, cs, k - 1) {
      NoLinkWhereTouched(m, cs, k - 1, p);
      assert Get(TreeAt(m, cs, k), p) == Get(TreeAt(m, cs, k - 1), p);
    }
  }

  lemma FilesOnlyAt(b: Tree, m: Commit, cs: seq<Commit>, i: nat, p: Path)
    requires i <= |cs| && FilesOnly(m, cs)
    ensures p in TouchedBy(m, cs, i) ==>
              !HasLink(TreeAt(m, cs, i), p) && Standing(b, m, cs, i, p) == Get(TreeAt(m, cs, i), p)
    ensures p !in TouchedBy(m, cs, i) ==>
              Standing(b, m, cs, i, p) == Get(b, p) && Get(TreeAt(m, cs, i), p) == Get(m.tree, p)
  {
    StandingIs(b, m, cs, i, p);
    if p in TouchedBy(m, cs, i) { NoLinkWhereTouched(m, cs, i, p); }
  }

  lemma FirstTouchDecides(b: Tree, m: Commit, cs: seq<Commit>, k: nat, p: Path)
    requires k <= |cs| && FilesOnly(m, cs) && Undisturbed(b, m, cs, k)
    requires p in TouchedBy(m, cs, k) && p in b
    ensures Get(b, p) == Get(m.tree, p)
  {
    var i := FirstTouch(m, cs, k, p);
    FilesOnlyAt(b, m, cs, i, p);
    assert Standing(b, m, cs, i, p).Some?;
  }

  lemma EndPointsDecide(b: Tree, m: Commit, cs: seq<Commit>, k: nat, i: nat, p: Path)
    requires i < k <= |cs| && FilesOnly(m, cs) && TargetUnchanged(b, m, cs, k)
    requires p in TouchedAt(m, cs, i) && Standing(b, m, cs, i, p).Some?
    ensures Standing(b, m, cs, i, p) == Get(TreeAt(m, cs, i), p)
  {
    FilesOnlyAt(b, m, cs, i, p);
    assert p in TouchedBy(m, cs, i + 1);
    TouchedStays(m, cs, i + 1, k, p);
  }

  lemma FilesOnlyKeepsLinks(b: Tree, m: Commit, cs: seq<Commit>, k: nat)
    requires k <= |cs| && FilesOnly(m, cs)
    ensures LinksKept(b, m, cs, k)
  {
    forall p | p in TouchedBy(m, cs, k) ensures !HasLink(TreeAt(m, cs, k), p) {
      NoLinkWhereTouched(m, cs, k, p);
    }
  }

  lemma UndisturbedFromEndPoints(b: Tree, m: Commit, cs: seq<Commit>, k: nat)
    requires k <= |cs| && FilesOnly(m, cs) && TargetUnchanged(b, m, cs, k)
    ensures Undisturbed(b, m, cs, k)
  {
    forall i, p | 0 <= i < k && p in TouchedAt(m, cs, i) && Standing(b, m, cs, i, p).Some?
      ensures Standing(b, m, cs, i, p) == Get(TreeAt(m, cs, i), p)
    {
      EndPointsDecide(b, m, cs, k, i, p);
    }
  }

  lemma EndPointsFromUndisturbed(b: Tree, m: Commit, cs: seq<Commit>, k: nat)
    requires k <= |cs| && FilesOnly(m, cs) && Undisturbed(b, m, cs, k)
    ensures TargetUnchanged(b, m, cs, k)
  {
    forall p | p in TouchedBy(m, cs, k) && p in b ensures Get(b, p) == Get(m.tree, p) {
      FirstTouchDecides(b, m, cs, k, p);
    }
  }

  /** For a chain of files only, what each commit expects can be read off the end points, and no link is
      skipped. */
  lemma FilesOnlyByEndPoints(b: Tree, m: Commit, cs: seq<Commit>, k: nat)
    requires k <= |cs| && FilesOnly(m, cs)
    ensures Undisturbed(b, m, cs, k) <==> TargetUnchanged(b, m, cs, k)
    ensures LinksKept(b, m, cs, k)
  {
    FilesOnlyKeepsLinks(b, m, cs, k);
    if Undisturbed(b, m, cs, k) {
      EndPointsFromUndisturbed(b, m, cs, k);
    } else if TargetUnchanged(b, m, cs, k) {
      UndisturbedFromEndPoints(b, m, cs, k);
    }
  }

  // ----- chains without delete-only commits

  /** Every commit that deletes a file writes one, too. */
  ghost predicate NoBareDeletion(m: Commit, cs: seq<Commit>) {
    forall i, p :: 0 <= i < |cs| && Bare(m, cs, i) ==> !Deletes(m, cs, i, p)
  }

  lemma NoBareDeletionLeavesNothing(b: Tree, m: Commit, cs: seq<Commit>, k: nat, p: Path)
    requires k <= |cs| && NoBareDeletion(m, cs)
    ensures !Uncommitted(b, m, cs, k, p)
  {
    forall d | 0 <= d < k && BareRun(m, cs, d, k) ensures !DeletesLive(b, m, cs, d, p) {
      assert Bare(m, cs, d);
    }
  }

  /** Without delete-only commits: a replay that goes through leaves index and HEAD alike, and they are one
      three-way merge exactly when no link was skipped. For files only, it goes through exactly when the target
      left every touched path absent or unchanged, and HEAD then has the last commit's content on every touched
      path and the target's elsewhere. */
  lemma FoldOfPicksIsThreeWayMerge(base: Commit, m: Commit, cs: seq<Commit>)
    requires OnTopOf(m, cs) && NoBareDeletion(m, cs)
    ensures AllClean(Snapshot(base, base.tree), cs, |cs|) <==> Undisturbed(base.tree, m, cs, |cs|)
    ensures AllClean(Snapshot(base, base.tree), cs, |cs|) ==>
              var s := After(Snapshot(base, base.tree), cs, |cs|);
              && s.index == s.head.tree
              && (s.head.tree == ThreeWay(base.tree, TouchedBy(m, cs, |cs|), TreeAt(m, cs, |cs|))
                  <==> LinksKept(base.tree, m, cs, |cs|))
    ensures FilesOnly(m, cs) ==>
              && (Undisturbed(base.tree, m, cs, |cs|) <==> TargetUnchanged(base.tree, m, cs, |cs|))
              && LinksKept(base.tree, m, cs, |cs|)
  {
    ReplaySucceedsIff(base, m, cs, |cs|);
    forall i, p | 0 <= i <= |cs| ensures !Uncommitted(base.tree, m, cs, i, p) {
      NoBareDeletionLeavesNothing(base.tree, m, cs, i, p);
    }
    if AllClean(Snapshot(base, base.tree), cs, |cs|) {
      ReplayResult(base, m, cs);
    }
    if FilesOnly(m, cs) {
      FilesOnlyByEndPoints(base.tree, m, cs, |cs|);
    }
  }

  lemma ThreeWayFromFork(m: Commit, cs: seq<Commit>)
    ensures ThreeWay(m.tree, TouchedBy(m, cs, |cs|), TreeAt(m, cs, |cs|)) == TreeAt(m, cs, |cs|)
  {
    var n := |cs|;
    var merged := ThreeWay(m.tree, TouchedBy(m, cs, n), TreeAt(m, cs, n));
    ThreeWayGet(m.tree, TouchedBy(m, cs, n), TreeAt(m, cs, n));
    forall p ensures Get(merged, p) == Get(TreeAt(m, cs, n), p) { StandingIs(m.tree, m, cs, n, p); }
    SameTree(merged, TreeAt(m, cs, n));
  }

  /** Replaying a chain onto its own fork point: when it goes through, HEAD gets the chain's last tree exactly
      when no link was skipped and no deletion is left uncommitted. For files only, it goes through exactly when
      no commit brings back an uncommitted deletion; without delete-only commits that always holds. */
  lemma ReplayInPlace(m: Commit, cs: seq<Commit>)
    requires OnTopOf(m, cs)
    ensures AllClean(Snapshot(m, m.tree), cs, |cs|)
            <==> Undisturbed(m.tree, m, cs, |cs|) && NoReAdd(m.tree, m, cs, |cs|)
    ensures AllClean(Snapshot(m, m.tree), cs, |cs|) ==>
              var s := After(Snapshot(m, m.tree), cs, |cs|);
              && (s.index == TreeAt(m, cs, |cs|) <==> LinksKept(m.tree, m, cs, |cs|))
              && (s.head.tree == TreeAt(m, cs, |cs|) <==>
                    LinksKept(m.tree, m, cs, |cs|) && forall p :: !Uncommitted(m.tree, m, cs, |cs|, p))
    ensures FilesOnly(m, cs) ==> Undisturbed(m.tree, m, cs, |cs|) && LinksKept(m.tree, m, cs, |cs|)
    ensures NoBareDeletion(m, cs) ==>
              NoReAdd(m.tree, m, cs, |cs|) && forall p :: !Uncommitted(m.tree, m, cs, |cs|, p)
  {
    ReplaySucceedsIff(m, m, cs, |cs|);
    ThreeWayFromFork(m, cs);
    if AllClean(Snapshot(m, m.tree), cs, |cs|) {
      ReplayResult(m, m, cs);
    }
    if FilesOnly(m, cs) { FilesOnlyByEndPoints(m.tree, m, cs, |cs|); }
    if NoBareDeletion(m, cs) {
      forall i, p | 0 <= i <= |cs| ensures !Uncommitted(m.tree, m, cs, i, p) {
        NoBareDeletionLeavesNothing(m.tree, m, cs, i, p);
      }
    }
  }

  /** A delete-only commit replayed onto its own parent is lost from HEAD. */
  lemma LastDeletionIsLost()
    ensures var m := Commit([], map["a" := Blob("1")], Text("m"));
            var c := Commit([m], map[], Text("delete a"));
            var s := After(Snapshot(m, m.tree), [c], 1);
            AllClean(Snapshot(m, m.tree), [c], 1) && s.head == m && s.index == c.tree
  {
    var m := Commit([], map["a" := Blob("1")], Text("m"));
    var c := Commit([m], map[], Text("delete a"));
    assert OnTopOf(m, [c]);
    assert "a" in Touched(m.tree, c.tree) && Clashes(m.tree, c.tree, m.tree) == {};
    var s := After(Snapshot(m, m.tree), [c], 1);
    assert After(Snapshot(m, m.tree), [c], 0) == Snapshot(m, m.tree);
    SameTree(s.index, c.tree);
  }

  /** Deleting a file in one commit and adding it back in the next clashes although nobody else touched
      it, even when the branch is replayed onto its own fork point. */
  lemma ReAddAfterDeletionClashes()
    ensures var m := Commit([], map["a" := Blob("1")], Text("m"));
            var c := Commit([m], map[], Text("delete a"));
            var d := Commit([c], map["a" := Blob("2")], Text("add a"));
            PickVerdict(After(Snapshot(m, m.tree), [c, d], 1), d) == Clash({"a"})
  {
    var m := Commit([], map["a" := Blob("1")], Text("m"));
    var c := Commit([m], map[], Text("delete a"));
    var d := Commit([c], map["a" := Blob("2")], Text("add a"));
    var start := Snapshot(m, m.tree);
    assert After(start, [c, d], 0) == start;
    assert Applicable(m.tree, c.tree) == {};
    assert After(start, [c, d], 1).head == m;
    assert After(start, [c, d], 1) == PickSnapshot(start, c);
    assert Touched(c.tree, d.tree) == {"a"} == Written(c.tree, m.tree);
    assert Clashes(c.tree, d.tree, m.tree) == {"a"};
  }

  /** A submodule link is skipped without a word, and a file that takes its place then clashes, even when the
      branch is replayed onto its own fork point. */
  lemma SkippedLinkClashes()
    ensures var m := Commit([], map["a" := Blob("1")], Text("m"));
            var c := Commit([m], map["a" := Gitlink("2")], Text("a is a submodule"));
            var d := Commit([c], map["a" := Blob("3")], Text("a is a file again"));
            && After(Snapshot(m, m.tree), [c, d], 1) == Snapshot(m, m.tree)
            && AllClean(Snapshot(m, m.tree), [c, d], 1)
            && PickVerdict(After(Snapshot(m, m.tree), [c, d], 1), d) == Clash({"a"})
  {
    var m := Commit([], map["a" := Blob("1")], Text("m"));
    var c := Commit([m], map["a" := Gitlink("2")], Text("a is a submodule"));
    var d := Commit([c], map["a" := Blob("3")], Text("a is a file again"));
    var start := Snapshot(m, m.tree);
    assert After(start, [c, d], 0) == start;
    assert Touched(m.tree, c.tree) == {"a"} && Applicable(m.tree, c.tree) == {} == Clashes(m.tree, c.tree, m.tree);
    OverlayGet(m.tree, {"a"}, c.tree);
    SameTree(Overlay(m.tree, {"a"}, c.tree), m.tree);
    assert After(start, [c, d], 1) == PickSnapshot(start, c) == start;
    assert Touched(c.tree, d.tree) == {"a"} == Written(c.tree, m.tree);
  }
}
