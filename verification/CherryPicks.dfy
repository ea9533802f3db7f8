/** What one cherry-pick does to HEAD and the index, and the promises it keeps. */
module CherryPicks {
  import opened Options
  import opened Trees
  import opened Commits
  import opened ChangeReplay

  /** The part of a repository that a pick reads and writes. The index feeds the next commit. */
  datatype Snapshot = Snapshot(head: Commit, index: Tree)

  datatype Verdict = Clean | Rootless | Clash(files: set<Path>)

  /** Paths the source changed that HEAD also added or modified since the source's parent. */
  function Clashes(parent: Tree, source: Tree, head: Tree): set<Path> {
    Touched(parent, source) * Written(parent, head)
  }

  function PickVerdict(s: Snapshot, source: Commit): Verdict {
    if source.parents == [] then Rootless
    else
      var clashes := Clashes(source.parents[0].tree, source.tree, s.head.tree);
      if clashes == {} then Clean else Clash(clashes)
  }

  function PickSnapshot(s: Snapshot, source: Commit): Snapshot {
    if source.parents == [] then s
    else
      var parent := source.parents[0].tree;
      var clashes := Clashes(parent, source.tree, s.head.tree);
      var index := Overlay(s.index, Touched(parent, source.tree) - clashes, source.tree);
      if clashes != {} || Applicable(parent, source.tree) == {} then Snapshot(s.head, index)
      else Snapshot(Commit([s.head], index, Picked(|source.parents| >= 2, source)), index)
  }

  // The two trees hold the same under `p`.
  predicate Agree(a: Tree, b: Tree, p: Path) {
    (p in a <==> p in b) && (p in a ==> a[p] == b[p])
  }

  /** The source changed `p`, and HEAD holds something else there than the source's parent did. */
  ghost predicate Stopped(parent: Tree, source: Tree, head: Tree, p: Path) {
    !Agree(parent, source, p) && p in head && !Agree(parent, head, p)
  }

  /** A pick reports exactly the paths that both sides changed, and is clean when there are none. */
  lemma PickReports(s: Snapshot, source: Commit)
    requires source.parents != []
    ensures var (parent, tree, verdict) := (source.parents[0].tree, source.tree, PickVerdict(s, source));
            if verdict.Clash? then
              && (exists p :: p in verdict.files)
              && forall p :: p in verdict.files <==> Stopped(parent, tree, s.head.tree, p)
            else verdict == Clean && forall p :: !Stopped(parent, tree, s.head.tree, p)
  {
    var (parent, tree, head) := (source.parents[0].tree, source.tree, s.head.tree);
    var clashes := Clashes(parent, tree, head);
    forall p ensures p in clashes <==> Stopped(parent, tree, head, p) { AgreeIsGet(parent, tree, head, p); }
    if clashes != {} { var p :| p in clashes; }
  }

  lemma AgreeIsGet(a: Tree, b: Tree, c: Tree, p: Path)
    ensures Agree(a, b, p) <==> p !in Touched(a, b)
    ensures Stopped(a, b, c, p) <==> p in Clashes(a, b, c)
  {
    assert Agree(a, b, p) <==> Get(a, p) == Get(b, p);
    assert Agree(a, c, p) <==> Get(a, p) == Get(c, p);
  }

  /** What it does not report it stages, but for submodule links; everything else stays in the index. */
  lemma PickStages(s: Snapshot, source: Commit, p: Path)
    requires source.parents != []
    ensures var (parent, tree, index) := (source.parents[0].tree, source.tree, PickSnapshot(s, source).index);
            if Agree(parent, tree, p) || Stopped(parent, tree, s.head.tree, p) || (p in tree && tree[p].Gitlink?)
            then Agree(index, s.index, p)
            else Agree(index, tree, p)
  {
    var (parent, tree, head) := (source.parents[0].tree, source.tree, s.head.tree);
    var paths := Touched(parent, tree) - Clashes(parent, tree, head);
    AgreeIsGet(parent, tree, head, p);
    OverlayGet(s.index, paths, tree);
    assert Get(PickSnapshot(s, source).index, p) == OverlayAt(s.index, paths, tree, p);
  }

  /** It makes a commit exactly when it reports nothing and writes some file: the index on top of HEAD, naming
      the source and whether that was a merge. */
  lemma PickCommits(s: Snapshot, source: Commit)
    requires source.parents != []
    ensures var (parent, tree, after) := (source.parents[0].tree, source.tree, PickSnapshot(s, source));
            after.head ==
            if (forall p :: !Stopped(parent, tree, s.head.tree, p))
               && exists p :: !Agree(parent, tree, p) && p in tree && tree[p].Blob?
            then Commit([s.head], after.index, Picked(|source.parents| >= 2, source))
            else s.head
  {
    var (parent, tree, head) := (source.parents[0].tree, source.tree, s.head.tree);
    var applicable := Applicable(parent, tree);
    PickReports(s, source);
    forall p ensures p in applicable <==> !Agree(parent, tree, p) && p in tree && tree[p].Blob? {
      AgreeIsGet(parent, tree, head, p);
    }
    assert applicable != {} <==> exists p :: p in applicable;
  }

  /** A clean pick that writes a file commits the three-way result: the source where it differs from
      its parent, HEAD everywhere else, and HEAD's own additions and edits untouched. */
  lemma CleanPickIsThreeWay(s: Snapshot, source: Commit)
    requires s.index == s.head.tree
    requires PickVerdict(s, source) == Clean
    requires Applicable(source.parents[0].tree, source.tree) != {}
    ensures var parent, picked := source.parents[0].tree, PickSnapshot(s, source);
            && picked.head.parents == [s.head] && picked.index == picked.head.tree
            && (forall p :: p in Touched(parent, source.tree) && !(p in source.tree && source.tree[p].Gitlink?) ==>
                 Get(picked.head.tree, p) == Get(source.tree, p))
            && (forall p :: p !in Touched(parent, source.tree) ==> Get(picked.head.tree, p) == Get(s.head.tree, p))
            && (forall p :: p in Written(parent, s.head.tree) ==> Get(picked.head.tree, p) == Get(s.head.tree, p))
  {
    var parent := source.parents[0].tree;
    assert Touched(parent, source.tree) - Clashes(parent, source.tree, s.head.tree) == Touched(parent, source.tree);
    OverlayGet(s.index, Touched(parent, source.tree), source.tree);
    forall p | p in Written(parent, s.head.tree) ensures p !in Touched(parent, source.tree) {
      assert p !in Clashes(parent, source.tree, s.head.tree);
    }
  }

  /** Every failing pick leaves the HEAD commit alone, but a conflict still stages the other changes. */
  lemma FailedPickKeepsHead(s: Snapshot, source: Commit, p: Path)
    requires PickVerdict(s, source) != Clean
    ensures var after := PickSnapshot(s, source);
            && after.head == s.head
            && (source.parents == [] ==> after == s)
            && (source.parents != [] && p in Written(source.parents[0].tree, s.head.tree) ==>
                 Get(after.index, p) == Get(s.index, p))
  {
    if source.parents != [] {
      var parent := source.parents[0].tree;
      var paths := Touched(parent, source.tree) - Clashes(parent, source.tree, s.head.tree);
      OverlayGet(s.index, paths, source.tree);
      assert p in Written(parent, s.head.tree) ==> p !in paths;
      assert Get(Overlay(s.index, paths, source.tree), p) == OverlayAt(s.index, paths, source.tree, p);
    }
  }

  /** A pick that only deletes files makes no commit: the deletions stay staged, so HEAD and the index
      part ways exactly when HEAD held one of the deleted files. */
  lemma BarePickOnlyStages(s: Snapshot, source: Commit)
    requires s.index == s.head.tree
    requires PickVerdict(s, source) == Clean
    requires forall p :: p in Touched(source.parents[0].tree, source.tree) ==> p !in source.tree
    ensures var after := PickSnapshot(s, source);
            && after.head == s.head
            && (after.index == s.head.tree <==> Touched(source.parents[0].tree, source.tree) !! s.head.tree.Keys)
  {
    var parent, after := source.parents[0].tree, PickSnapshot(s, source);
    var touched := Touched(parent, source.tree);
    assert touched - Clashes(parent, source.tree, s.head.tree) == touched;
    OverlayGet(s.index, touched, source.tree);
    if touched !! s.head.tree.Keys {
      forall p ensures Get(after.index, p) == Get(s.head.tree, p) {
        assert Get(after.index, p) == OverlayAt(s.index, touched, source.tree, p);
      }
      SameTree(after.index, s.head.tree);
    } else {
      var p :| p in touched && p in s.head.tree;
      assert Get(after.index, p) == OverlayAt(s.index, touched, source.tree, p) == None;
    }
  }

  /** Against a strict three-way merge, which stops on every path both sides changed, the pick misses
      exactly the paths HEAD deleted, and for those it brings the file back. */
  lemma DeletedByHeadIsOverwritten(s: Snapshot, source: Commit)
    requires source.parents != []
    ensures var parent := source.parents[0].tree;
            var strict := Touched(parent, source.tree) * Touched(parent, s.head.tree);
            && Clashes(parent, source.tree, s.head.tree) == (set p | p in strict && p in s.head.tree)
            && (forall p :: p in strict && p !in s.head.tree && p in source.tree && source.tree[p].Blob? ==>
                 Get(PickSnapshot(s, source).index, p) == Some(source.tree[p]))
  {
    var parent := source.parents[0].tree;
    var clashes := Clashes(parent, source.tree, s.head.tree);
    OverlayGet(s.index, Touched(parent, source.tree) - clashes, source.tree);
  }

  /** The three exits of a pick, in terms of what its change loop produced. */
  lemma ReplayedIsPick(s: Snapshot, source: Commit, chs: seq<Change>, r: Progress)
    requires source.parents != [] && IsDiff(chs, source.parents[0].tree, source.tree)
    requires r == ReplayChanges(Progress(s.index, [], []), chs,
                                Written(source.parents[0].tree, s.head.tree), source.tree)
    ensures ChangeReplay.Distinct(r.conflicted)
    ensures PickVerdict(s, source) == if r.conflicted == [] then Clean else Clash(Elements(r.conflicted))
    ensures PickSnapshot(s, source) ==
            if r.conflicted != [] || r.applied == [] then Snapshot(s.head, r.index)
            else Snapshot(Commit([s.head], r.index, Picked(|source.parents| >= 2, source)), r.index)
  {
    ReplayDiff(s.index, chs, source.parents[0].tree, source.tree, s.head.tree);
    if r.conflicted != [] { assert r.conflicted[0] in Elements(r.conflicted); }
    if r.applied != [] { assert r.applied[0] in Elements(r.applied); }
    if r.conflicted == [] {
      assert Elements(r.applied) == Applicable(source.parents[0].tree, source.tree);
    }
  }

  lemma UntouchedPick(s: Snapshot, source: Commit)
    requires source.parents != [] && Touched(source.parents[0].tree, source.tree) == {}
    ensures PickSnapshot(s, source) == s && PickVerdict(s, source) == Clean
  {
    OverlayGet(s.index, {}, source.tree);
    SameTree(Overlay(s.index, {}, source.tree), s.index);
  }
}
