/** Splitting a unified diff into files: the filename list and the per-file patches. */
module DiffSplitter {
  import opened Options

  const HEADER := "diff --git a/"

  datatype DiffFile = DiffFile(filename: string, status: string, patch: string, additions: nat, deletions: nat)

  // ----- strings

  /** `strings.Split(s, "\n")` */
  function Lines(s: string): (lines: seq<string>)
    ensures lines != []
  {
    if s == "" then [""]
    else
      var rest := Lines(s[1..]);
      if s[0] == '\n' then [""] + rest else [[s[0]] + rest[0]] + rest[1..]
  }

  /** `strings.Join(lines, "\n")` */
  function Join(lines: seq<string>): string {
    if lines == [] then "" else if |lines| == 1 then lines[0] else lines[0] + "\n" + Join(lines[1..])
  }

  /** The text " b/" stands at position `j`. */
  predicate SideAt(s: string, j: nat) {
    j + 2 < |s| && s[j] == ' ' && s[j + 1] == 'b' && s[j + 2] == '/'
  }

  /** The position where `strings.SplitN(s, " b/", 2)` cuts. */
  function FindSide(s: string): (i: Option<nat>)
    ensures i.Some? ==> SideAt(s, i.value) && forall j :: 0 <= j < i.value ==> !SideAt(s, j)
    ensures i.None? ==> forall j :: 0 <= j < |s| ==> !SideAt(s, j)
  {
    if |s| < 3 then None
    else if SideAt(s, 0) then Some(0)
    else
      assert forall j :: 0 < j < |s| ==> (SideAt(s, j) <==> SideAt(s[1..], j - 1));
      match FindSide(s[1..])
      case None => None
      case Some(i) => Some(i + 1)
  }

  /** The old-side name of a header line, `None` when the line has no new side. */
  function HeaderName(line: string): Option<string> {
    match FindSide(line)
    case None => None
    case Some(i) => if HEADER <= line[..i] then Some(line[|HEADER|..i]) else Some(line[..i])
  }

  /** Splitting cuts at every newline and loses nothing else. */
  lemma {:induction false} JoinLines(s: string)
    ensures Join(Lines(s)) == s
    ensures forall i :: 0 <= i < |Lines(s)| ==> '\n' !in Lines(s)[i]
  {
    if s != "" {
      var rest := Lines(s[1..]);
      JoinLines(s[1..]);
      if s[0] == '\n' {
        assert ([""] + rest)[1..] == rest;
        assert Join(Lines(s)) == "" + "\n" + Join(rest);
        assert s == ['\n'] + s[1..];
      } else {
        var first := [s[0]] + rest[0];
        assert ([first] + rest[1..])[1..] == rest[1..];
        assert s == [s[0]] + s[1..];
        if |rest| > 1 { assert first + "\n" + Join(rest[1..]) == [s[0]] + (rest[0] + "\n" + Join(rest[1..])); }
      }
    }
  }

  lemma {:induction false} JoinConcat(a: seq<string>, b: seq<string>)
    requires a != [] && b != []
    ensures Join(a + b) == Join(a) + "\n" + Join(b) && (|a| == 1 ==> Join(a) == a[0])
  {
    if |a| == 1 {
      assert (a + b)[1..] == b;
    } else {
      assert (a + b)[1..] == a[1..] + b;
      JoinConcat(a[1..], b);
    }
  }

  // ----- the parsers

  function StatusAfter(status: string, line: string): string {
    if "new file" <= line then "added"
    else if "deleted file" <= line then "removed"
    else if "rename from" <= line then "renamed"
    else status
  }

  predicate IsAddition(line: string) {
    line != "" && line[0] == '+' && !("+++" <= line)
  }

  predicate IsDeletion(line: string) {
    line != "" && line[0] == '-' && !("---" <= line)
  }

  datatype State = State(files: seq<DiffFile>, current: Option<DiffFile>, patchLines: seq<string>)

  const EMPTY := State([], None, [])

  function Close(f: DiffFile, patchLines: seq<string>): DiffFile {
    f.(patch := Join(patchLines))
  }

  function ParseLine(s: State, line: string): State {
    if HEADER <= line then
      var files := if s.current.Some? then s.files + [Close(s.current.value, s.patchLines)] else s.files;
      match HeaderName(line)
      case Some(name) => State(files, Some(DiffFile(name, "modified", "", 0, 0)), [])
      case None =>
        State(files, if s.current.Some? then Some(Close(s.current.value, s.patchLines)) else None, s.patchLines)
    else if s.current.Some? then
      var f := s.current.value;
      State(s.files, Some(DiffFile(f.filename, StatusAfter(f.status, line), f.patch,
                                   f.additions + if IsAddition(line) then 1 else 0,
                                   f.deletions + if IsDeletion(line) then 1 else 0)),
            s.patchLines + [line])
    else s
  }

  function ParseFrom(s: State, lines: seq<string>): State
    decreases |lines|
  {
    if lines == [] then s else ParseFrom(ParseLine(s, lines[0]), lines[1..])
  }

  function Finish(s: State): seq<DiffFile> {
    if s.current.Some? then s.files + [Close(s.current.value, s.patchLines)] else s.files
  }

  method ParseDiffFileContents(diff: string) returns (files: seq<DiffFile>)
    ensures files == Finish(ParseFrom(EMPTY, Lines(diff)))
  {
    files := [];
    var lines := Lines(diff);
    var currentFile: Option<DiffFile>, patchLines: seq<string> := None, [];
    for i := 0 to |lines|
      invariant ParseFrom(State(files, currentFile, patchLines), lines[i..]) == ParseFrom(EMPTY, lines)
    {
      var line := lines[i];
      ghost var before := State(files, currentFile, patchLines);
      if HEADER <= line {
        if currentFile.Some? {
          currentFile := Some(currentFile.value.(patch := Join(patchLines)));
          files := files + [currentFile.value];
        }
        var name := HeaderName(line);
        if name.Some? {
          currentFile, patchLines := Some(DiffFile(name.value, "modified", "", 0, 0)), [];
        }
      } else if currentFile.Some? {
        var f := currentFile.value.(status := StatusAfter(currentFile.value.status, line));
        patchLines := patchLines + [line];
        if IsAddition(line) {
          f := f.(additions := f.additions + 1);
        } else if IsDeletion(line) {
          f := f.(deletions := f.deletions + 1);
        }
        currentFile := Some(f);
      }
      assert State(files, currentFile, patchLines) == ParseLine(before, line);
      assert lines[i..][1..] == lines[i + 1..];
    }
    if currentFile.Some? {
      files := files + [currentFile.value.(patch := Join(patchLines))];
    }
  }

  function NameIn(line: string): seq<string> {
    if HEADER <= line && HeaderName(line).Some? then [HeaderName(line).value] else []
  }

  /** The names of the well-formed header lines, in order. */
  function HeaderNames(lines: seq<string>): seq<string> {
    if lines == [] then [] else NameIn(lines[0]) + HeaderNames(lines[1..])
  }

  lemma {:induction false} HeaderNamesConcat(a: seq<string>, b: seq<string>)
    ensures HeaderNames(a + b) == HeaderNames(a) + HeaderNames(b)
  {
    if a == [] {
      assert a + b == b;
    } else {
      assert (a + b)[1..] == a[1..] + b;
      HeaderNamesConcat(a[1..], b);
    }
  }

  lemma HeaderNamesAppend(lines: seq<string>, line: string)
    ensures HeaderNames(lines + [line]) == HeaderNames(lines) + NameIn(line)
  {
    HeaderNamesConcat(lines, [line]);
    assert HeaderNames([line]) == NameIn(line);
  }

  method ParseDiffFiles(diff: string) returns (files: seq<string>)
    ensures files == HeaderNames(Lines(diff))
  {
    var lines := Lines(diff);
    files := [];
    for i := 0 to |lines|
      invariant files == HeaderNames(lines[..i])
    {
      assert lines[..i + 1] == lines[..i] + [lines[i]];
      HeaderNamesAppend(lines[..i], lines[i]);
      if HEADER <= lines[i] {
        var name := HeaderName(lines[i]);
        if name.Some? {
          files := files + [name.value];
        }
      }
    }
    assert lines[..|lines|] == lines;
  }

  /** A header line names what stands between "diff --git a/" and the first " b/"; without one it names nothing,
      and neither does a line that is no header. */
  lemma HeaderNamesOf(line: string, name: string)
    ensures HeaderNames([line]) == [name] <==>
              && "diff --git a/" + name + " b/" <= line
              && forall j :: 0 <= j < 13 + |name| ==> !(" b/" <= line[j..])
    ensures HeaderNames([line]) == [] <==>
              !("diff --git a/" <= line) || forall j :: 0 <= j <= |line| ==> !(" b/" <= line[j..])
  {
    assert HeaderNames([line]) == NameIn(line);
    forall j | 0 <= j <= |line| ensures " b/" <= line[j..] <==> SideAt(line, j) { SideIsPrefix(line, j); }
    if "diff --git a/" + name + " b/" <= line { SideAfter("diff --git a/" + name, line); }
    var at := FindSide(line);
    if HEADER <= line && at.Some? {
      NotInHeader(line, at.value);
      StartsWith(line, at.value);
      assert " b/" <= line[at.value..];
    }
  }

  lemma SideIsPrefix(line: string, j: nat)
    requires j <= |line|
    ensures " b/" <= line[j..] <==> SideAt(line, j)
  {
    if SideAt(line, j) { assert line[j..][..3] == " b/"; }
    if " b/" <= line[j..] { assert line[j] == " b/"[0] && line[j + 1] == " b/"[1] && line[j + 2] == " b/"[2]; }
  }

  lemma StartsWith(line: string, i: nat)
    requires |HEADER| <= i && HEADER <= line && SideAt(line, i)
    ensures HEADER + line[|HEADER|..i] + " b/" <= line
    ensures line[..i] == HEADER + line[|HEADER|..i]
  {
    assert line[i..i + 3] == " b/";
    assert line[..i + 3] == line[..i] + line[i..i + 3];
  }

  lemma SideAfter(start: string, line: string)
    requires start + " b/" <= line
    ensures SideAt(line, |start|) && line[..|start|] == start
  {
    assert line[|start|] == (start + " b/")[|start|] && line[|start| + 1] == (start + " b/")[|start| + 1];
    assert line[|start| + 2] == (start + " b/")[|start| + 2];
  }

  lemma NotInHeader(line: string, i: nat)
    requires HEADER <= line && SideAt(line, i)
    ensures |HEADER| <= i && HEADER <= line[..i]
  {
    HeaderBlanks();
    if i < |HEADER| {
      assert false;
    }
  }

  // ----- round trip on well-formed diffs

  /** One file of a diff: its name and the lines under its header. */
  datatype Section = Section(name: string, body: seq<string>)

  function HeaderLine(name: string): string {
    HEADER + name + " b/" + name
  }

  ghost predicate WellFormed(x: Section) {
    && FindSide(x.name) == None
    && forall i :: 0 <= i < |x.body| ==> !(HEADER <= x.body[i])
  }

  ghost predicate AllWellFormed(xs: seq<Section>) {
    xs == [] || (WellFormed(xs[0]) && AllWellFormed(xs[1..]))
  }

  function EmptyBodies(xs: seq<Section>): nat {
    if xs == [] then 0 else (if xs[0].body == [] then 1 else 0) + EmptyBodies(xs[1..])
  }

  function RenderOne(x: Section): (lines: seq<string>)
    ensures lines != []
  {
    [HeaderLine(x.name)] + x.body
  }

  function Render(xs: seq<Section>): seq<string> {
    if xs == [] then [] else RenderOne(xs[0]) + Render(xs[1..])
  }

  function StatusOf(status: string, body: seq<string>): string
    decreases |body|
  {
    if body == [] then status else StatusOf(StatusAfter(status, body[0]), body[1..])
  }

  function Additions(body: seq<string>): nat {
    if body == [] then 0 else (if IsAddition(body[0]) then 1 else 0) + Additions(body[1..])
  }

  function Deletions(body: seq<string>): nat {
    if body == [] then 0 else (if IsDeletion(body[0]) then 1 else 0) + Deletions(body[1..])
  }

  ghost function Starting(lines: seq<string>, sign: string): set<nat> {
    set i: nat | i < |lines| && sign <= lines[i] && !(sign + sign + sign <= lines[i])
  }

  lemma {:induction false} CountsAppend(body: seq<string>, line: string)
    ensures Additions(body + [line]) == Additions(body) + if IsAddition(line) then 1 else 0
    ensures Deletions(body + [line]) == Deletions(body) + if IsDeletion(line) then 1 else 0
  {
    if body != [] {
      assert (body + [line])[1..] == body[1..] + [line];
      CountsAppend(body[1..], line);
    }
  }

  lemma StartingMore(body: seq<string>, line: string, sign: string)
    ensures |Starting(body + [line], sign)| ==
            |Starting(body, sign)| + if sign <= line && !(sign + sign + sign <= line) then 1 else 0
  {
    var all := body + [line];
    assert all[|body|] == line && forall i: nat :: i < |body| ==> all[i] == body[i];
    assert Starting(all, sign) ==
           Starting(body, sign) + if sign <= line && !(sign + sign + sign <= line) then {|body|} else {};
  }

  lemma SignOf(line: string)
    ensures IsAddition(line) <==> "+" <= line && !("+" + "+" + "+" <= line)
    ensures IsDeletion(line) <==> "-" <= line && !("-" + "-" + "-" <= line)
  {
    assert "+" + "+" + "+" == "+++" && "-" + "-" + "-" == "---";
  }

  /** The counts are the numbers of body lines that start with a sign but not with three of it, and no line
      counts as both. */
  lemma {:induction false} CountsAreCardinalities(body: seq<string>)
    ensures Additions(body) == |Starting(body, "+")| && Deletions(body) == |Starting(body, "-")|
    ensures Starting(body, "+") !! Starting(body, "-")
  {
    forall i | 0 <= i < |body| ensures !("+" <= body[i] && "-" <= body[i]) {
      assert "+" <= body[i] ==> body[i][0] == '+';
      assert "-" <= body[i] ==> body[i][0] == '-';
    }
    if body == [] {
      assert Starting(body, "+") == {} && Starting(body, "-") == {};
    } else {
      var front, last := body[..|body| - 1], body[|body| - 1];
      CountsAreCardinalities(front);
      CountsAppend(front, last);
      SignOf(last);
      StartingMore(front, last, "+");
      StartingMore(front, last, "-");
      assert body == front + [last];
    }
  }

  predicate IsMarker(line: string) {
    "new file" <= line || "deleted file" <= line || "rename from" <= line
  }

  /** The status is decided by the last marker line; a renamed or deleted file is never reported as added. */
  lemma {:induction false} LastMarkerDecides(status: string, body: seq<string>, i: nat)
    requires i < |body| && IsMarker(body[i]) && forall j :: i < j < |body| ==> !IsMarker(body[j])
    ensures StatusOf(status, body) == "added" <==> "new file" <= body[i]
    ensures StatusOf(status, body) == "removed" <==> "deleted file" <= body[i]
    ensures StatusOf(status, body) == "renamed" <==> "rename from" <= body[i]
    decreases i
  {
    if i > 0 {
      LastMarkerDecides(StatusAfter(status, body[0]), body[1..], i - 1);
    } else {
      NoMarkerNoChange(StatusAfter(status, body[0]), body[1..]);
      MarkersExclude(body[0]);
    }
  }

  lemma MarkersExclude(line: string)
    ensures !("new file" <= line && "deleted file" <= line)
    ensures !("new file" <= line && "rename from" <= line)
    ensures !("deleted file" <= line && "rename from" <= line)
  {
    assert "new file" <= line ==> line[0] == 'n';
    assert "deleted file" <= line ==> line[0] == 'd';
    assert "rename from" <= line ==> line[0] == 'r';
  }

  lemma {:induction false} NoMarkerNoChange(status: string, body: seq<string>)
    requires forall j :: 0 <= j < |body| ==> !IsMarker(body[j])
    ensures StatusOf(status, body) == status
    decreases |body|
  {
    if body != [] { NoMarkerNoChange(status, body[1..]); }
  }

  function Parsed(x: Section): DiffFile {
    DiffFile(x.name, StatusOf("modified", x.body), Join(x.body), Additions(x.body), Deletions(x.body))
  }

  function ParsedAll(xs: seq<Section>): seq<DiffFile> {
    if xs == [] then [] else [Parsed(xs[0])] + ParsedAll(xs[1..])
  }

  /** The file has the name and the lines of the section and the numbers of its patch lines. */
  ghost predicate Recovers(f: DiffFile, x: Section) {
    && f.filename == x.name && f.patch == Join(x.body) && f.status == StatusOf("modified", x.body)
    && f.additions == |Starting(x.body, "+")| && f.deletions == |Starting(x.body, "-")|
  }

  lemma {:induction false} ParsedRecovers(xs: seq<Section>)
    ensures |ParsedAll(xs)| == |xs| && forall i :: 0 <= i < |xs| ==> Recovers(ParsedAll(xs)[i], xs[i])
  {
    if xs != [] {
      ParsedRecovers(xs[1..]);
      CountsAreCardinalities(xs[0].body);
    }
  }

  lemma HeaderBlanks()
    ensures forall j :: 0 <= j < |HEADER| && HEADER[j] == ' ' ==> j + 1 < |HEADER| && HEADER[j + 1] != 'b'
  {
  }

  /** In a header line the first " b/" is the one that separates the two names. */
  lemma FirstSide(header: string, name: string, tail: string)
    requires forall j :: 0 <= j < |header| && header[j] == ' ' ==> j + 1 < |header| && header[j + 1] != 'b'
    requires FindSide(name) == None && SideAt(tail, 0)
    ensures FindSide(header + name + tail) == Some(|header| + |name|)
  {
    var line, at := header + name + tail, |header| + |name|;
    assert line[at] == tail[0] && line[at + 1] == tail[1] && line[at + 2] == tail[2];
    forall j: nat | j < at ensures !SideAt(line, j) {
      if j < |header| {
        assert line[j] == header[j];
        assert j + 1 < |header| ==> line[j + 1] == header[j + 1];
      } else {
        var k := j - |header|;
        assert !SideAt(name, k);
        assert line[j] == name[k];
        assert k + 1 < |name| ==> line[j + 1] == name[k + 1];
        assert k + 2 < |name| ==> line[j + 2] == name[k + 2];
      }
    }
    assert SideAt(line, at);
  }

  lemma HeaderLineName(name: string)
    requires FindSide(name) == None
    ensures HEADER <= HeaderLine(name) && HeaderName(HeaderLine(name)) == Some(name)
  {
    HeaderBlanks();
    FirstSide(HEADER, name, " b/" + name);
    NameBetween(HEADER, name, " b/" + name);
    assert HeaderLine(name) == HEADER + name + (" b/" + name);
  }

  lemma NameBetween(header: string, name: string, tail: string)
    ensures var line, at := header + name + tail, |header| + |name|;
            header <= line[..at] && line[|header|..at] == name && header <= line
  {
    assert (header + name + tail)[..|header| + |name|] == header + name;
  }

  lemma {:induction false} ParseFromConcat(s: State, a: seq<string>, b: seq<string>)
    ensures ParseFrom(s, a + b) == ParseFrom(ParseFrom(s, a), b)
    decreases |a|
  {
    if a == [] {
      assert a + b == b;
    } else {
      assert (a + b)[1..] == a[1..] + b;
      ParseFromConcat(ParseLine(s, a[0]), a[1..], b);
    }
  }

  /** The lines under a header are collected and counted. */
  lemma {:induction false} ParseBody(s: State, body: seq<string>)
    requires s.current.Some? && forall i :: 0 <= i < |body| ==> !(HEADER <= body[i])
    ensures var f := s.current.value;
            ParseFrom(s, body) ==
            State(s.files, Some(DiffFile(f.filename, StatusOf(f.status, body), f.patch,
                                         f.additions + Additions(body), f.deletions + Deletions(body))),
                  s.patchLines + body)
    decreases |body|
  {
    if body == [] {
      assert s.patchLines + body == s.patchLines;
    } else {
      ParseBody(ParseLine(s, body[0]), body[1..]);
      assert s.patchLines + [body[0]] + body[1..] == s.patchLines + body;
    }
  }

  lemma {:induction false} ParsePrelude(prelude: seq<string>)
    requires forall i :: 0 <= i < |prelude| ==> !(HEADER <= prelude[i])
    ensures ParseFrom(EMPTY, prelude) == EMPTY && HeaderNames(prelude) == []
  {
    if prelude != [] { ParsePrelude(prelude[1..]); }
  }

  lemma ParseSection(s: State, x: Section)
    requires WellFormed(x)
    ensures Finish(ParseFrom(s, RenderOne(x))) == Finish(s) + [Parsed(x)]
  {
    var lines := RenderOne(x);
    HeaderLineName(x.name);
    var s1 := ParseLine(s, lines[0]);
    assert s1 == State(Finish(s), Some(DiffFile(x.name, "modified", "", 0, 0)), []);
    assert lines[1..] == x.body;
    ParseBody(s1, x.body);
    assert [] + x.body == x.body;
  }

  lemma ParseSectionThen(s: State, x: Section, rest: seq<string>) returns (s': State)
    requires WellFormed(x)
    ensures ParseFrom(s, RenderOne(x) + rest) == ParseFrom(s', rest) && Finish(s') == Finish(s) + [Parsed(x)]
  {
    s' := ParseFrom(s, RenderOne(x));
    ParseFromConcat(s, RenderOne(x), rest);
    ParseSection(s, x);
  }

  lemma {:induction false} ParseSections(s: State, xs: seq<Section>, lines: seq<string>)
    requires AllWellFormed(xs) && lines == Render(xs)
    ensures Finish(ParseFrom(s, lines)) == Finish(s) + ParsedAll(xs)
    decreases |xs|
  {
    if xs == [] {
      assert Finish(s) + [] == Finish(s);
    } else {
      var rest := Render(xs[1..]);
      var s' := ParseSectionThen(s, xs[0], rest);
      ParseSections(s', xs[1..], rest);
      SeqAssoc(Finish(s), [Parsed(xs[0])], ParsedAll(xs[1..]));
    }
  }

  lemma SeqAssoc<T>(a: seq<T>, b: seq<T>, c: seq<T>)
    ensures a + b + c == a + (b + c)
  {
  }

  /** A file as text again: header line and patch. */
  function Text(f: DiffFile): string {
    HeaderLine(f.filename) + "\n" + f.patch
  }

  function Texts(fs: seq<DiffFile>): seq<string> {
    if fs == [] then [] else [Text(fs[0])] + Texts(fs[1..])
  }

  /** One file as text against its lines: the same, or one newline more when nothing followed the header. */
  lemma TextIsRendered(x: Section)
    ensures x.body != [] ==> Text(Parsed(x)) == Join(RenderOne(x))
    ensures x.body == [] ==> Text(Parsed(x)) == Join(RenderOne(x)) + "\n"
  {
    if x.body != [] {
      JoinConcat([HeaderLine(x.name)], x.body);
    } else {
      assert RenderOne(x) == [HeaderLine(x.name)];
    }
  }

  lemma {:induction false} TextsAreRendered(xs: seq<Section>)
    ensures |Join(Texts(ParsedAll(xs)))| == |Join(Render(xs))| + EmptyBodies(xs)
    ensures EmptyBodies(xs) == 0 ==> Join(Texts(ParsedAll(xs))) == Join(Render(xs))
  {
    if xs != [] {
      TextIsRendered(xs[0]);
      TextsAreRendered(xs[1..]);
      assert ParsedAll(xs)[1..] == ParsedAll(xs[1..]);
      if |xs| > 1 {
        JoinConcat(RenderOne(xs[0]), Render(xs[1..]));
        JoinConcat([Text(Parsed(xs[0]))], Texts(ParsedAll(xs[1..])));
      } else {
        assert RenderOne(xs[0]) + [] == RenderOne(xs[0]);
      }
    }
  }

  lemma {:induction false} NamesOfSections(xs: seq<Section>)
    requires AllWellFormed(xs)
    ensures |HeaderNames(Render(xs))| == |xs| && forall i :: 0 <= i < |xs| ==> HeaderNames(Render(xs))[i] == xs[i].name
  {
    if xs != [] {
      NameOfSection(xs[0]);
      NamesOfSections(xs[1..]);
      HeaderNamesConcat(RenderOne(xs[0]), Render(xs[1..]));
    }
  }

  lemma NameOfSection(x: Section)
    requires WellFormed(x)
    ensures HeaderNames(RenderOne(x)) == [x.name]
  {
    HeaderLineName(x.name);
    ParsePrelude(x.body);
    HeaderNamesConcat([HeaderLine(x.name)], x.body);
    assert HeaderNames([HeaderLine(x.name)]) == [x.name];
  }

  /** When every header names the same file on both sides, the parser recovers every section, its counts are
      those of its patch lines, and both parsers list the same names. The files rendered again give back the
      text from the first header on exactly when at least one line follows every header. */
  lemma RoundTrip(diff: string, lines: seq<string>, files: seq<DiffFile>, prelude: seq<string>, xs: seq<Section>)
    requires lines == Lines(diff) == prelude + Render(xs) && files == Finish(ParseFrom(EMPTY, lines))
    requires forall i :: 0 <= i < |prelude| ==> !(HEADER <= prelude[i])
    requires AllWellFormed(xs)
    ensures diff == Join(lines) && |files| == |xs| && forall i :: 0 <= i < |xs| ==> Recovers(files[i], xs[i])
    ensures Join(Texts(files)) == Join(lines[|prelude|..]) <==> EmptyBodies(xs) == 0
    ensures |HeaderNames(lines)| == |xs| && forall i :: 0 <= i < |xs| ==> HeaderNames(lines)[i] == xs[i].name
  {
    JoinLines(diff);
    ParsedRecovers(xs);
    ParseWhole(prelude, xs, Render(xs));
    TextsAreRendered(xs);
    NamesOfSections(xs);
    assert lines[|prelude|..] == Render(xs);
  }

  lemma ParseWhole(prelude: seq<string>, xs: seq<Section>, rendered: seq<string>)
    requires forall i :: 0 <= i < |prelude| ==> !(HEADER <= prelude[i])
    requires AllWellFormed(xs) && rendered == Render(xs)
    ensures Finish(ParseFrom(EMPTY, prelude + rendered)) == ParsedAll(xs)
    ensures HeaderNames(prelude + rendered) == HeaderNames(rendered)
  {
    ParsePrelude(prelude);
    ParseFromConcat(EMPTY, prelude, rendered);
    ParseSections(EMPTY, xs, rendered);
    HeaderNamesConcat(prelude, rendered);
    assert [] + ParsedAll(xs) == ParsedAll(xs);
  }

  // ----- malformed headers

  predicate BadHeader(line: string) {
    HEADER <= line && HeaderName(line) == None
  }

  /** Bad header lines once a file is open. */
  function BadAfter(open: bool, lines: seq<string>): nat
    decreases |lines|
  {
    if lines == [] then 0
    else (if open && BadHeader(lines[0]) then 1 else 0)
         + BadAfter(open || (HEADER <= lines[0] && !BadHeader(lines[0])), lines[1..])
  }

  /** A header without a new side lists the open file as it is, and then goes on with it: the file is listed a
      second time with the lines before and after that header. */
  lemma BadHeaderListsTwice(
      x: Section, bad: string, rest: seq<string>, lines: seq<string>, files: seq<DiffFile>)
    requires WellFormed(x) && BadHeader(bad) && forall i :: 0 <= i < |rest| ==> !(HEADER <= rest[i])
    requires lines == RenderOne(x) + ([bad] + rest) && files == Finish(ParseFrom(EMPTY, lines))
    ensures |files| == 2 && Recovers(files[0], x) && Recovers(files[1], Section(x.name, x.body + rest))
  {
    var whole := Section(x.name, x.body + rest);
    var s' := AfterWhole(x, bad, rest, lines);
    RecoversParsed(x);
    RecoversParsed(whole);
    assert files == Finish(s') == [Parsed(x), Parsed(whole)];
  }

  lemma RecoversParsed(x: Section)
    ensures Recovers(Parsed(x), x)
  {
    CountsAreCardinalities(x.body);
  }

  lemma AfterWhole(x: Section, bad: string, rest: seq<string>, lines: seq<string>) returns (s': State)
    requires WellFormed(x) && BadHeader(bad) && forall i :: 0 <= i < |rest| ==> !(HEADER <= rest[i])
    requires lines == RenderOne(x) + ([bad] + rest)
    ensures s' == ParseFrom(EMPTY, lines)
    ensures var whole := Section(x.name, x.body + rest);
            s'.files == [Parsed(x)] && s'.patchLines == whole.body &&
            s'.current.Some? && s'.current.value.(patch := "") == Parsed(whole).(patch := "")
  {
    var s := AfterSection(x);
    ParseFromConcat(EMPTY, RenderOne(x), [bad] + rest);
    s' := AfterBad(x, s, bad, rest);
  }

  lemma AfterSection(x: Section) returns (s: State)
    requires WellFormed(x)
    ensures s == ParseFrom(EMPTY, RenderOne(x))
    ensures s == State([], Some(Parsed(x).(patch := "")), x.body)
  {
    HeaderLineName(x.name);
    assert RenderOne(x)[1..] == x.body;
    s := ParseLine(EMPTY, HeaderLine(x.name));
    ParseBody(s, x.body);
    s := ParseFrom(s, x.body);
    assert [] + x.body == x.body;
  }

  lemma AfterBad(x: Section, s: State, bad: string, rest: seq<string>) returns (s': State)
    requires s == State([], Some(Parsed(x).(patch := "")), x.body)
    requires BadHeader(bad) && forall i :: 0 <= i < |rest| ==> !(HEADER <= rest[i])
    ensures s' == ParseFrom(s, [bad] + rest)
    ensures var whole := Section(x.name, x.body + rest);
            s'.files == [Parsed(x)] && s'.patchLines == whole.body &&
            s'.current.Some? && s'.current.value.(patch := "") == Parsed(whole).(patch := "")
  {
    var begun := State([Parsed(x)], Some(Parsed(x)), x.body);
    assert ParseLine(s, bad) == begun;
    NextLine(s, bad, rest, begun);
    ParseBody(begun, rest);
    s' := ParseFrom(begun, rest);
    CountsConcat(x.body, rest);
    StatusConcat("modified", x.body, rest);
  }

  lemma NextLine(s: State, line: string, rest: seq<string>, s': State)
    requires s' == ParseLine(s, line)
    ensures ParseFrom(s, [line] + rest) == ParseFrom(s', rest)
  {
    assert ([line] + rest)[1..] == rest;
  }

  lemma {:induction false} CountsConcat(a: seq<string>, b: seq<string>)
    ensures Additions(a + b) == Additions(a) + Additions(b) && Deletions(a + b) == Deletions(a) + Deletions(b)
  {
    if a == [] {
      assert a + b == b;
    } else {
      assert (a + b)[1..] == a[1..] + b;
      CountsConcat(a[1..], b);
    }
  }

  lemma {:induction false} StatusConcat(status: string, a: seq<string>, b: seq<string>)
    ensures StatusOf(status, a + b) == StatusOf(StatusOf(status, a), b)
    decreases |a|
  {
    if a == [] {
      assert a + b == b;
    } else {
      assert (a + b)[1..] == a[1..] + b;
      StatusConcat(StatusAfter(status, a[0]), a[1..], b);
    }
  }

  lemma {:induction false} FileCount(s: State, lines: seq<string>)
    ensures |Finish(ParseFrom(s, lines))| == |Finish(s)| + |HeaderNames(lines)| + BadAfter(s.current.Some?, lines)
    decreases |lines|
  {
    if lines != [] { FileCount(ParseLine(s, lines[0]), lines[1..]); }
  }

  lemma {:induction false} NamesAppear(s: State, lines: seq<string>)
    requires BadAfter(s.current.Some?, lines) == 0
    ensures FileNames(Finish(ParseFrom(s, lines))) == FileNames(Finish(s)) + HeaderNames(lines)
    decreases |lines|
  {
    if lines != [] {
      var s' := ParseLine(s, lines[0]);
      NamesAppear(s', lines[1..]);
      if HEADER <= lines[0] && HeaderName(lines[0]).Some? {
        FileNamesSnoc(Finish(s), Close(s'.current.value, []));
      } else if s.current.Some? {
        FileNamesSnoc(s.files, Close(s.current.value, s.patchLines));
        FileNamesSnoc(s.files, Close(s'.current.value, s'.patchLines));
      }
    }
  }

  function FileNames(fs: seq<DiffFile>): seq<string> {
    if fs == [] then [] else FileNames(fs[..|fs| - 1]) + [fs[|fs| - 1].filename]
  }

  lemma {:induction false} FileNamesLength(fs: seq<DiffFile>)
    ensures |FileNames(fs)| == |fs|
  {
    if fs != [] { FileNamesLength(fs[..|fs| - 1]); }
  }

  lemma FileNamesSnoc(fs: seq<DiffFile>, f: DiffFile)
    ensures FileNames(fs + [f]) == FileNames(fs) + [f.filename]
  {
    assert (fs + [f])[..|fs|] == fs;
  }

  /** On any text at all, the two parsers agree on the names exactly when no header without a new side comes
      after a well-formed one; each such header lists the open file once more. */
  lemma ParsersAgreeIff(lines: seq<string>)
    ensures FileNames(Finish(ParseFrom(EMPTY, lines))) == HeaderNames(lines) <==> BadAfter(false, lines) == 0
    ensures |Finish(ParseFrom(EMPTY, lines))| == |HeaderNames(lines)| + BadAfter(false, lines)
  {
    FileCount(EMPTY, lines);
    FileNamesLength(Finish(ParseFrom(EMPTY, lines)));
    if BadAfter(false, lines) == 0 {
      NamesAppear(EMPTY, lines);
      assert [] + HeaderNames(lines) == HeaderNames(lines);
    }
  }
}
