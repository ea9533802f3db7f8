/** One pass over a list of changes, exactly as the cherry-pick loops do it, and what the
    pass amounts to when the list is a tree diff. */
module ChangeReplay {
  import opened Options
  import opened Trees

  datatype Progress = Progress(index: Tree, conflicted: seq<string>, applied: seq<string>)

  /** `Tree.File` followed by `File.Contents`. */
  function FileText(t: Tree, name: string): Option<string> {
    if name in t && t[name].Blob? then Some(t[name].text) else None
  }

  function Unstage(index: Tree, name: string): Tree {
    map p | p in index && p != name :: index[p]
  }

  function Stage(index: Tree, name: Path, text: string): Tree
    requires name != ""
  {
    index[name := Blob(text)]
  }

  function ReplayChange(r: Progress, ch: Change, headChanged: set<string>, source: Tree): Progress {
    if ch.to == "" && ch.from == "" then r
    else if ch.to == "" then
      if ch.from in headChanged then r.(conflicted := r.conflicted + [ch.from])
      else r.(index := Unstage(r.index, ch.from))
    else if ch.from != "" && ch.from != ch.to && ch.from in headChanged then
      r.(conflicted := r.conflicted + [ch.from])
    else
      var index := if ch.from != "" && ch.from != ch.to then Unstage(r.index, ch.from) else r.index;
      if ch.to in headChanged then Progress(index, r.conflicted + [ch.to], r.applied)
      else
        match FileText(source, ch.to)
        case None => r.(index := index)
        case Some(text) => Progress(Stage(index, ch.to, text), r.conflicted, r.applied + [ch.to])
  }

  function ReplayChanges(r: Progress, chs: seq<Change>, headChanged: set<string>, source: Tree): Progress {
    if chs == [] then r
    else
      ReplayChange(ReplayChanges(r, chs[..|chs| - 1], headChanged, source), chs[|chs| - 1], headChanged, source)
  }

  /** The paths a pick can actually write: differing ones whose source entry is a blob. */
  function Applicable(parent: Tree, source: Tree): set<Path> {
    set p | p in Touched(parent, source) && p in source && source[p].Blob?
  }

  ghost function Elements(s: seq<string>): set<string> {
    set i | 0 <= i < |s| :: s[i]
  }

  ghost predicate Distinct(s: seq<string>) {
    forall i, j :: 0 <= i < j < |s| ==> s[i] != s[j]
  }

  lemma ElementsAppend(s: seq<string>, x: string)
    ensures Elements(s + [x]) == Elements(s) + {x}
  {
    assert forall i :: 0 <= i < |s| ==> (s + [x])[i] == s[i];
    assert (s + [x])[|s|] == x;
    forall y | y in Elements(s) ensures y in Elements(s + [x]) {
      var i :| 0 <= i < |s| && s[i] == y;
      assert (s + [x])[i] == y;
    }
  }

  /** `r` staged exactly the unblocked paths of `names` and reported the blocked ones. */
  ghost predicate Replayed(r: Progress, index: Tree, names: set<string>, headChanged: set<string>, source: Tree) {
    && (forall p: Path :: Get(r.index, p) == OverlayAt(index, names - headChanged, source, p))
    && Elements(r.conflicted) == names * headChanged && Distinct(r.conflicted)
    && Elements(r.applied) == (set p | p in names - headChanged && FileText(source, p).Some?)
  }

  /** In a diff a change names one path, and has an empty target exactly when the source lacks it. */
  predicate Plain(ch: Change, source: Tree) {
    && NameOf(ch) != "" && (ch.to == "" || ch.from == "" || ch.from == ch.to)
    && (ch.to == "" <==> NameOf(ch) !in source)
  }

  lemma PlainChange(r: Progress, ch: Change, headChanged: set<string>, source: Tree)
    requires Plain(ch, source)
    ensures var r', name := ReplayChange(r, ch, headChanged, source), NameOf(ch);
            if name in headChanged then r' == Progress(r.index, r.conflicted + [name], r.applied)
            else if name !in source then r' == Progress(Unstage(r.index, name), r.conflicted, r.applied)
            else if source[name].Gitlink? then r' == r
            else r' == Progress(r.index[name := source[name]], r.conflicted, r.applied + [name])
  {
  }

  /** A rename, which this diff never lists, would be a deletion and an addition: a name that HEAD wrote stops it
      there, the old one before anything is staged and the new one after the old one is gone. */
  lemma RenamedChange(r: Progress, from: string, to: string, headChanged: set<string>, source: Tree)
    requires from != "" && to != "" && from != to
    ensures var r' := ReplayChange(r, Change(from, to), headChanged, source);
            if from in headChanged then r' == Progress(r.index, r.conflicted + [from], r.applied)
            else if to in headChanged then r' == Progress(r.index - {from}, r.conflicted + [to], r.applied)
            else if to in source && source[to].Blob? then
              r' == Progress((r.index - {from})[to := source[to]], r.conflicted, r.applied + [to])
            else r' == Progress(r.index - {from}, r.conflicted, r.applied)
  {
    assert Unstage(r.index, from) == r.index - {from};
  }

  lemma ReplayedChange(r: Progress, ch: Change, index: Tree, names: set<string>, headChanged: set<string>, source: Tree)
    requires Replayed(r, index, names, headChanged, source)
    requires Plain(ch, source) && NameOf(ch) !in names
    ensures Replayed(ReplayChange(r, ch, headChanged, source), index, names + {NameOf(ch)}, headChanged, source)
  {
    var r', name := ReplayChange(r, ch, headChanged, source), NameOf(ch);
    PlainChange(r, ch, headChanged, source);
    ElementsAppend(r.conflicted, name);
    ElementsAppend(r.applied, name);
    assert forall i :: 0 <= i < |r.conflicted| ==> r.conflicted[i] in Elements(r.conflicted);
    forall p: Path ensures Get(r'.index, p) == OverlayAt(index, names + {name} - headChanged, source, p) {
      assert Get(r.index, p) == OverlayAt(index, names - headChanged, source, p);
    }
  }

  lemma {:induction false} ReplayPart(index: Tree, chs: seq<Change>, headChanged: set<string>, source: Tree)
    requires forall i :: 0 <= i < |chs| ==> Plain(chs[i], source)
    requires forall i, j :: 0 <= i < j < |chs| ==> NameOf(chs[i]) != NameOf(chs[j])
    ensures Replayed(ReplayChanges(Progress(index, [], []), chs, headChanged, source),
                     index, NamesOf(chs), headChanged, source)
  {
    if chs != [] {
      var n := |chs| - 1;
      ReplayPart(index, chs[..n], headChanged, source);
      NamesOfAppend(chs[..n], chs[n]);
      assert chs[..n] + [chs[n]] == chs;
      ReplayedChange(ReplayChanges(Progress(index, [], []), chs[..n], headChanged, source),
                     chs[n], index, NamesOf(chs[..n]), headChanged, source);
    }
  }

  /** A whole diff: the index takes the source where it differs from its parent and HEAD did not
      write, the conflict list is the rest. */
  lemma ReplayDiff(index: Tree, chs: seq<Change>, parent: Tree, source: Tree, head: Tree)
    requires IsDiff(chs, parent, source)
    ensures var r := ReplayChanges(Progress(index, [], []), chs, Written(parent, head), source);
            var clash := Touched(parent, source) * Written(parent, head);
            && r.index == Overlay(index, Touched(parent, source) - clash, source)
            && Elements(r.conflicted) == clash && Distinct(r.conflicted)
            && Elements(r.applied) == Applicable(parent, source) - clash
  {
    var clash := Touched(parent, source) * Written(parent, head);
    var r := ReplayChanges(Progress(index, [], []), chs, Written(parent, head), source);
    forall i | 0 <= i < |chs| ensures Plain(chs[i], source) {
      assert NameOf(chs[i]) in NamesOf(chs);
    }
    ReplayPart(index, chs, Written(parent, head), source);
    assert Touched(parent, source) - clash == NamesOf(chs) - Written(parent, head);
    OverlayGet(index, Touched(parent, source) - clash, source);
    SameTree(r.index, Overlay(index, Touched(parent, source) - clash, source));
  }
}
