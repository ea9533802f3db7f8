/** Git trees as flat maps from path to entry, and the tree diff that go-git's
    `object.DiffTree` returns: no rename detection, one change per differing path. */
module Trees {
  import opened Options

  type Path = string

  // `Tree.File` resolves a blob and fails on a submodule link.
  datatype Entry = Blob(text: string) | Gitlink(commit: string)

  // The empty name is no path: inside a change record it stands for "no such side".
  type Tree = t: map<Path, Entry> | "" !in t witness map[]

  function Get(t: Tree, p: Path): Option<Entry> {
    if p in t then Some(t[p]) else None
  }

  /** The paths whose entry differs between two trees. */
  function Touched(a: Tree, b: Tree): set<Path> {
    set p | p in a.Keys + b.Keys && Get(a, p) != Get(b, p)
  }

  /** The paths of `b` that `b` added or modified since `a`; deletions are not among them. */
  function Written(a: Tree, b: Tree): set<Path> {
    set p | p in b.Keys && Get(a, p) != Get(b, p)
  }

  datatype Change = Change(from: string, to: string)

  function ChangeAt(a: Tree, b: Tree, p: Path): Change {
    Change(if p in a then p else "", if p in b then p else "")
  }

  function NameOf(ch: Change): string {
    if ch.to != "" then ch.to else ch.from
  }

  ghost function NamesOf(chs: seq<Change>): set<string> {
    set i | 0 <= i < |chs| :: NameOf(chs[i])
  }

  lemma NamesOfAppend(chs: seq<Change>, ch: Change)
    ensures NamesOf(chs + [ch]) == NamesOf(chs) + {NameOf(ch)}
  {
    forall p | p in NamesOf(chs) ensures p in NamesOf(chs + [ch]) {
      var i :| 0 <= i < |chs| && NameOf(chs[i]) == p;
      assert (chs + [ch])[i] == chs[i];
    }
    assert (chs + [ch])[|chs|] == ch;
  }

  /** `chs` holds one change for each path of `paths`, in some order, and renames nothing. */
  ghost predicate ListsOnce(chs: seq<Change>, paths: set<Path>, a: Tree, b: Tree) {
    && NamesOf(chs) == paths
    && (forall i :: 0 <= i < |chs| ==> chs[i] == ChangeAt(a, b, NameOf(chs[i])))
    && (forall i, j :: 0 <= i < j < |chs| ==> NameOf(chs[i]) != NameOf(chs[j]))
  }

  ghost predicate IsDiff(chs: seq<Change>, a: Tree, b: Tree) {
    ListsOnce(chs, Touched(a, b), a, b)
  }

  lemma ListsOneMore(chs: seq<Change>, paths: set<Path>, a: Tree, b: Tree, p: Path)
    requires ListsOnce(chs, paths, a, b) && p !in paths && p in a.Keys + b.Keys
    ensures ListsOnce(chs + [ChangeAt(a, b, p)], paths + {p}, a, b)
  {
    NamesOfAppend(chs, ChangeAt(a, b, p));
    assert forall i :: 0 <= i < |chs| ==> NameOf(chs[i]) in NamesOf(chs);
  }

  method ListChanges(a: Tree, b: Tree, paths: set<Path>) returns (chs: seq<Change>)
    requires paths <= a.Keys + b.Keys
    ensures ListsOnce(chs, paths, a, b)
  {
    chs := [];
    var todo := paths;
    while todo != {}
      invariant todo <= paths && ListsOnce(chs, paths - todo, a, b)
      decreases |todo|
    {
      var p :| p in todo;
      ListsOneMore(chs, paths - todo, a, b, p);
      assert paths - todo + {p} == paths - (todo - {p});
      chs := chs + [ChangeAt(a, b, p)];
      todo := todo - {p};
    }
    assert paths - todo == paths;
  }

  /** The library's diff; the order of the changes is left open. */
  method DiffTree(a: Tree, b: Tree) returns (chs: seq<Change>)
    ensures IsDiff(chs, a, b)
    ensures |chs| == 0 <==> Touched(a, b) == {}
  {
    chs := ListChanges(a, b, Touched(a, b));
    assert |chs| != 0 ==> NameOf(chs[0]) in NamesOf(chs);
  }

  /** What path `p` holds after the blobs and deletions of `s` on `paths` are laid over `t`;
      a submodule link in `s` leaves the path alone. */
  function OverlayAt(t: Tree, paths: set<Path>, s: Tree, p: Path): Option<Entry> {
    if p !in paths then Get(t, p)
    else if p !in s then None
    else if s[p].Blob? then Some(s[p])
    else Get(t, p)
  }

  function Overlay(t: Tree, paths: set<Path>, s: Tree): Tree {
    map p | p in t.Keys + s.Keys && OverlayAt(t, paths, s, p).Some? :: OverlayAt(t, paths, s, p).value
  }

  lemma OverlayGet(t: Tree, paths: set<Path>, s: Tree)
    ensures forall p :: Get(Overlay(t, paths, s), p) == OverlayAt(t, paths, s, p)
  {
  }

  lemma SameTree(t: Tree, u: Tree)
    requires forall p :: Get(t, p) == Get(u, p)
    ensures t == u
  {
    forall p
      ensures p in t <==> p in u
      ensures p in t ==> t[p] == u[p]
    {
      assert Get(t, p) == Get(u, p);
    }
  }
}
