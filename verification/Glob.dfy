/** The file-pattern matcher: a two-index loop with recursion on stars, proved against a declarative
    reading of patterns. One `char` stands for one byte. */
module Glob {

  // ----- the meaning of a pattern

  datatype Item = Range(lo: char, hi: char)

  // `Never` is an opening bracket with nothing behind it.
  datatype Token = Star | AnyByte | Class(negated: bool, items: seq<Item>) | Literal(c: char) | Never

  /** The members of a class body: `x-y` is a range whatever `y` is, even `]`. */
  function ClassItems(body: string): seq<Item> {
    if body == "" || body[0] == ']' then []
    else if |body| > 2 && body[1] == '-' then [Range(body[0], body[2])] + ClassItems(body[3..])
    else [Range(body[0], body[0])] + ClassItems(body[1..])
  }

  /** What follows the members: the closing bracket and the rest, or nothing if the class is never closed. */
  function AfterItems(body: string): (rest: string)
    ensures |rest| <= |body|
  {
    if body == "" || body[0] == ']' then body
    else if |body| > 2 && body[1] == '-' then AfterItems(body[3..])
    else AfterItems(body[1..])
  }

  predicate Negates(c: char) {
    c == '!' || c == '^'
  }

  function ClassBody(p: string): string
    requires |p| > 1
  {
    if Negates(p[1]) then p[2..] else p[1..]
  }

  function AfterClass(p: string): (rest: string)
    requires |p| > 1
    ensures |rest| < |p|
  {
    var rest := AfterItems(ClassBody(p));
    if rest == "" then "" else rest[1..]
  }

  function Tokens(p: string): seq<Token>
    decreases |p|
  {
    if p == "" then []
    else if p[0] == '*' then [Star] + Tokens(p[1..])
    else if p[0] == '?' then [AnyByte] + Tokens(p[1..])
    else if p[0] == '[' then
      if |p| == 1 then [Never]
      else [Class(Negates(p[1]), ClassItems(ClassBody(p)))] + Tokens(AfterClass(p))
    else [Literal(p[0])] + Tokens(p[1..])
  }

  predicate InItems(items: seq<Item>, c: char) {
    exists i :: 0 <= i < |items| && items[i].lo <= c <= items[i].hi
  }

  predicate AcceptsByte(t: Token, c: char)
    requires !t.Star?
  {
    match t
    case AnyByte => true
    case Class(negated, items) => InItems(items, c) != negated
    case Literal(l) => l == c
    case Never => false
  }

  /** A star matches any string, every other token exactly one byte. */
  ghost predicate Accepts(ts: seq<Token>, name: string)
    decreases |ts|
  {
    if ts == [] then name == ""
    else if ts[0].Star? then exists k :: 0 <= k <= |name| && Accepts(ts[1..], name[k..])
    else name != "" && AcceptsByte(ts[0], name[0]) && Accepts(ts[1..], name[1..])
  }

  // ----- lemmas about stars

  lemma AcceptsStar(ts: seq<Token>, name: string)
    ensures Accepts([Star] + ts, name) <==> exists k :: 0 <= k <= |name| && Accepts(ts, name[k..])
  {
    assert ([Star] + ts)[1..] == ts;
  }

  lemma AcceptsByteFirst(t: Token, ts: seq<Token>, name: string)
    requires !t.Star?
    ensures Accepts([t] + ts, name) <==> name != "" && AcceptsByte(t, name[0]) && Accepts(ts, name[1..])
  {
    assert ([t] + ts)[1..] == ts;
  }

  lemma DoubleStar(ts: seq<Token>, name: string)
    ensures Accepts([Star] + ([Star] + ts), name) <==> Accepts([Star] + ts, name)
  {
    AcceptsStar([Star] + ts, name);
    AcceptsStar(ts, name);
    if Accepts([Star] + ([Star] + ts), name) {
      var k :| 0 <= k <= |name| && Accepts([Star] + ts, name[k..]);
      AcceptsStar(ts, name[k..]);
      var l :| 0 <= l <= |name[k..]| && Accepts(ts, name[k..][l..]);
      assert name[k..][l..] == name[k + l..];
    }
    if Accepts([Star] + ts, name) {
      assert name[0..] == name;
    }
  }

  /** A run of stars means the same as one. */
  lemma {:induction false} StarRun(p: string, from: nat, to: nat, name: string)
    requires from < to <= |p| && forall j :: from <= j < to ==> p[j] == '*'
    ensures Accepts(Tokens(p[from..]), name) <==> Accepts([Star] + Tokens(p[to..]), name)
    decreases |p| - from
  {
    assert p[from..][1..] == p[from + 1..];
    if from + 1 < to {
      StarRun(p, from + 1, to, name);
      assert p[from + 1..][1..] == p[from + 2..];
      DoubleStar(Tokens(p[from + 2..]), name);
    }
  }

  /** Against the empty name stars can be dropped, and nothing but stars matches. */
  lemma {:induction false} EmptyName(p: string, from: nat, to: nat)
    requires from <= to <= |p| && (forall j :: from <= j < to ==> p[j] == '*') && (to < |p| ==> p[to] != '*')
    ensures Accepts(Tokens(p[from..]), "") <==> to == |p|
  {
    if from < to {
      StarRun(p, from, to, "");
      AcceptsStar(Tokens(p[to..]), "");
      assert ""[0..] == "";
    }
    if to < |p| { assert p[to..][0] == p[to]; }
  }

  // ----- the matcher

  lemma InItemsCons(item: Item, rest: seq<Item>, c: char)
    ensures InItems([item] + rest, c) <==> item.lo <= c <= item.hi || InItems(rest, c)
  {
    var items := [item] + rest;
    if InItems(rest, c) {
      var i :| 0 <= i < |rest| && rest[i].lo <= c <= rest[i].hi;
      assert items[i + 1] == rest[i];
    }
    if item.lo <= c <= item.hi { assert items[0] == item; }
    if InItems(items, c) {
      var i :| 0 <= i < |items| && items[i].lo <= c <= items[i].hi;
      assert i > 0 ==> rest[i - 1] == items[i];
    }
  }

  lemma ItemsStep(body: string, c: char)
    requires body != "" && body[0] != ']'
    ensures |body| > 2 && body[1] == '-' ==>
              (InItems(ClassItems(body), c) <==> body[0] <= c <= body[2] || InItems(ClassItems(body[3..]), c))
    ensures !(|body| > 2 && body[1] == '-') ==>
              (InItems(ClassItems(body), c) <==> c == body[0] || InItems(ClassItems(body[1..]), c))
  {
    if |body| > 2 && body[1] == '-' {
      InItemsCons(Range(body[0], body[2]), ClassItems(body[3..]), c);
    } else {
      InItemsCons(Range(body[0], body[0]), ClassItems(body[1..]), c);
    }
  }

  /** The class loop, from the byte after the bracket (and after a negation sign). */
  method ScanClass(pattern: string, start: nat, c: char) returns (found: bool, pIdx: nat)
    requires start <= |pattern|
    ensures found <==> InItems(ClassItems(pattern[start..]), c)
    ensures start <= pIdx <= |pattern|
    ensures pattern[pIdx..] == if AfterItems(pattern[start..]) == "" then "" else AfterItems(pattern[start..])[1..]
  {
    pIdx, found := start, false;
    while pIdx < |pattern| && pattern[pIdx] != ']'
      invariant start <= pIdx <= |pattern|
      invariant AfterItems(pattern[start..]) == AfterItems(pattern[pIdx..])
      invariant InItems(ClassItems(pattern[start..]), c) <==> found || InItems(ClassItems(pattern[pIdx..]), c)
    {
      ItemsStep(pattern[pIdx..], c);
      if pIdx + 2 < |pattern| && pattern[pIdx + 1] == '-' {
        if c >= pattern[pIdx] && c <= pattern[pIdx + 2] {
          found := true;
        }
        assert pattern[pIdx..][3..] == pattern[pIdx + 3..];
        pIdx := pIdx + 3;
      } else {
        if c == pattern[pIdx] {
          found := true;
        }
        assert pattern[pIdx..][1..] == pattern[pIdx + 1..];
        pIdx := pIdx + 1;
      }
    }
    if pIdx < |pattern| {
      pIdx := pIdx + 1;
    }
  }

  /** Terminates, and for a non-empty pattern answers exactly what the pattern means; the empty pattern
      matches nothing. */
  method GlobMatch(pattern: string, name: string) returns (matched: bool)
    ensures pattern == "" ==> !matched
    ensures pattern != "" ==> (matched <==> Accepts(Tokens(pattern), name))
    decreases |pattern|, 1
  {
    if pattern == "" {
      return false;
    }
    var pIdx, nIdx := 0, 0;
    while pIdx < |pattern| && nIdx < |name|
      invariant pIdx <= |pattern| && nIdx <= |name|
      invariant Accepts(Tokens(pattern), name) <==> Accepts(Tokens(pattern[pIdx..]), name[nIdx..])
      decreases |pattern| - pIdx
    {
      ghost var p, n := pattern[pIdx..], name[nIdx..];
      assert p[1..] == pattern[pIdx + 1..] && n[1..] == name[nIdx + 1..];
      if pattern[pIdx] == '*' {
        matched := MatchAfterStar(pattern, pIdx, name, nIdx);
        return;
      } else if pattern[pIdx] == '?' {
        AcceptsByteFirst(AnyByte, Tokens(p[1..]), n);
        pIdx, nIdx := pIdx + 1, nIdx + 1;
      } else if pattern[pIdx] == '[' {
        pIdx := pIdx + 1;
        if pIdx >= |pattern| {
          return false;
        }
        var negate := false;
        if pattern[pIdx] == '!' || pattern[pIdx] == '^' {
          negate := true;
          pIdx := pIdx + 1;
        }
        assert ClassBody(p) == pattern[pIdx..];
        var found;
        found, pIdx := ScanClass(pattern, pIdx, name[nIdx]);
        AcceptsByteFirst(Class(negate, ClassItems(ClassBody(p))), Tokens(AfterClass(p)), n);
        if found == negate {
          return false;
        }
        nIdx := nIdx + 1;
      } else {
        AcceptsByteFirst(Literal(p[0]), Tokens(p[1..]), n);
        if pattern[pIdx] != name[nIdx] {
          return false;
        }
        pIdx, nIdx := pIdx + 1, nIdx + 1;
      }
    }
    ghost var from := pIdx;
    while pIdx < |pattern| && pattern[pIdx] == '*'
      invariant from <= pIdx <= |pattern| && forall j :: from <= j < pIdx ==> pattern[j] == '*'
    {
      pIdx := pIdx + 1;
    }
    if nIdx == |name| {
      EmptyName(pattern, from, pIdx);
    }
    return pIdx >= |pattern| && nIdx >= |name|;
  }

  /** Tries the pattern against every non-empty tail of the name. Leaving out the empty tail loses no
      match, because a pattern that does not start with a star never matches it. */
  method MatchSomeTail(pattern: string, name: string, nIdx: nat) returns (matched: bool)
    requires pattern != "" && pattern[0] != '*' && nIdx < |name|
    ensures matched <==> exists k :: nIdx <= k <= |name| && Accepts(Tokens(pattern), name[k..])
    decreases |pattern|, 2
  {
    for i := nIdx to |name|
      invariant forall k :: nIdx <= k < i ==> !Accepts(Tokens(pattern), name[k..])
    {
      var m := GlobMatch(pattern, name[i..]);
      if m {
        return true;
      }
    }
    EmptyName(pattern, 0, 0);
    assert pattern[0..] == pattern && name[|name|..] == "";
    return false;
  }

  /** The star case: skip the run of stars, then look for a tail that the rest of the pattern matches. */
  method MatchAfterStar(pattern: string, start: nat, name: string, nIdx: nat) returns (matched: bool)
    requires start < |pattern| && pattern[start] == '*' && nIdx < |name|
    ensures matched <==> Accepts(Tokens(pattern[start..]), name[nIdx..])
    decreases |pattern|, 0
  {
    var pIdx := start;
    while pIdx < |pattern| && pattern[pIdx] == '*'
      invariant start <= pIdx <= |pattern| && forall j :: start <= j < pIdx ==> pattern[j] == '*'
    {
      pIdx := pIdx + 1;
    }
    StarRun(pattern, start, pIdx, name[nIdx..]);
    AcceptsStar(Tokens(pattern[pIdx..]), name[nIdx..]);
    TailsOfTail(Tokens(pattern[pIdx..]), name, nIdx);
    if pIdx >= |pattern| {
      assert name[|name|..] == "";
      return true;
    }
    matched := MatchSomeTail(pattern[pIdx..], name, nIdx);
  }

  lemma TailsOfTail(ts: seq<Token>, name: string, nIdx: nat)
    requires nIdx <= |name|
    ensures (exists k :: 0 <= k <= |name[nIdx..]| && Accepts(ts, name[nIdx..][k..]))
            <==> exists k :: nIdx <= k <= |name| && Accepts(ts, name[k..])
  {
    var n := name[nIdx..];
    forall k | 0 <= k <= |n| ensures n[k..] == name[nIdx + k..] {}
    if k :| nIdx <= k <= |name| && Accepts(ts, name[k..]) {
      assert n[k - nIdx..] == name[k..];
    }
  }

  /** Two quirks of the class syntax: a class closed at once accepts nothing, and its negation accepts
      every byte, like a question mark. */
  lemma EmptyClasses(rest: string, name: string)
    ensures !Accepts(Tokens("[]" + rest), name)
    ensures Accepts(Tokens("[^]" + rest), name) <==> Accepts(Tokens("?" + rest), name)
  {
    var p, q := "[]" + rest, "[^]" + rest;
    assert ClassBody(p)[0] == ']' && AfterClass(p) == p[2..] == rest;
    AcceptsByteFirst(Class(false, []), Tokens(rest), name);
    assert ClassBody(q)[0] == ']' && AfterClass(q) == q[3..] == rest;
    AcceptsByteFirst(Class(true, []), Tokens(rest), name);
    assert ("?" + rest)[1..] == rest;
    AcceptsByteFirst(AnyByte, Tokens(rest), name);
  }

  // ----- the rules of the pattern language, on the text of patterns

  /** A star stands for any string, a question mark for any byte, any other byte but an opening bracket for
      itself; a bracket at the end matches nothing. */
  lemma PatternRules(p: string, c: char, name: string)
    ensures Accepts(Tokens(""), name) <==> name == ""
    ensures Accepts(Tokens("*" + p), name) <==> exists k :: 0 <= k <= |name| && Accepts(Tokens(p), name[k..])
    ensures Accepts(Tokens("?" + p), name) <==> name != "" && Accepts(Tokens(p), name[1..])
    ensures c != '*' && c != '?' && c != '[' ==>
              (Accepts(Tokens([c] + p), name) <==> name != "" && name[0] == c && Accepts(Tokens(p), name[1..]))
    ensures !Accepts(Tokens("["), name)
  {
    assert ("*" + p)[1..] == p && ("?" + p)[1..] == p && ([c] + p)[1..] == p;
    AcceptsStar(Tokens(p), name);
    AcceptsByteFirst(AnyByte, Tokens(p), name);
    AcceptsByteFirst(Literal(c), Tokens(p), name);
  }

  // A member of a class as written: a byte, or a range of two.
  datatype Member = One(c: char) | Between(lo: char, hi: char)

  function Spell(ms: seq<Member>): string {
    if ms == [] then ""
    else (match ms[0] case One(c) => [c] case Between(lo, hi) => [lo] + "-" + [hi]) + Spell(ms[1..])
  }

  /** Read from the left, the members can be told apart: none starts with a closing bracket, and a hyphen after
      a single byte is not taken for that of a range. */
  ghost predicate Legible(ms: seq<Member>) {
    ms == [] || (Legible(ms[1..]) &&
                 match ms[0]
                 case Between(lo, _) => lo != ']'
                 case One(c) => c != ']' && (ms[1..] == [] || Spell(ms[1..])[0] != '-'))
  }

  ghost predicate IsMember(ms: seq<Member>, c: char) {
    exists i :: 0 <= i < |ms| && match ms[i] case One(x) => c == x case Between(lo, hi) => lo <= c <= hi
  }

  lemma IsMemberCons(ms: seq<Member>, c: char)
    requires ms != []
    ensures IsMember(ms, c) <==> IsMember([ms[0]], c) || IsMember(ms[1..], c)
  {
    if IsMember([ms[0]], c) { assert [ms[0]][0] == ms[0]; }
    if i :| 0 <= i < |ms| - 1 && match ms[1..][i] case One(x) => c == x case Between(lo, hi) => lo <= c <= hi {
      assert ms[i + 1] == ms[1..][i];
    }
    if i :| 0 <= i < |ms| && match ms[i] case One(x) => c == x case Between(lo, hi) => lo <= c <= hi {
      assert if i > 0 then ms[1..][i - 1] == ms[i] else [ms[0]][0] == ms[i];
    }
  }

  lemma OnlyMember(m: Member, c: char)
    ensures IsMember([m], c) <==> match m case One(x) => c == x case Between(lo, hi) => lo <= c <= hi
  {
    assert [m][0] == m;
  }

  lemma {:induction false} ClassIsRead(ms: seq<Member>, rest: string, c: char)
    requires Legible(ms)
    ensures AfterItems(Spell(ms) + "]" + rest) == "]" + rest
    ensures InItems(ClassItems(Spell(ms) + "]" + rest), c) <==> IsMember(ms, c)
  {
    var body := Spell(ms) + "]" + rest;
    if ms == [] {
      assert body == "]" + rest;
    } else {
      var tail := Spell(ms[1..]) + "]" + rest;
      ClassIsRead(ms[1..], rest, c);
      IsMemberCons(ms, c);
      OnlyMember(ms[0], c);
      match ms[0]
      case One(x) =>
        assert body == [x] + tail && body[1..] == tail;
        ItemsStep(body, c);
      case Between(lo, hi) =>
        assert body == [lo] + "-" + [hi] + tail && body[3..] == tail;
        ItemsStep(body, c);
    }
  }

  /** A class stands for one byte that is among its members, with a sign in front for one that is not. */
  lemma ClassRule(negated: bool, sign: char, ms: seq<Member>, p: string, name: string)
    requires sign == '!' || sign == '^'
    requires Legible(ms) && (negated || (ms != [] && Spell(ms)[0] != '!' && Spell(ms)[0] != '^'))
    ensures var text := "[" + (if negated then [sign] else "") + Spell(ms) + "]" + p;
            Accepts(Tokens(text), name) <==>
              name != "" && (IsMember(ms, name[0]) <==> !negated) && Accepts(Tokens(p), name[1..])
  {
    var body := Spell(ms) + "]" + p;
    var text := "[" + (if negated then [sign] else "") + Spell(ms) + "]" + p;
    var c := if name == "" then 'x' else name[0];
    ClassIsRead(ms, p, c);
    assert text == "[" + (if negated then [sign] else "") + body;
    assert ClassBody(text) == body && ("]" + p)[1..] == p;
    AcceptsByteFirst(Class(negated, ClassItems(body)), Tokens(p), name);
  }

  lemma {:induction false} NeverClosed(ms: seq<Member>, c: char)
    requires Legible(ms)
    ensures AfterItems(Spell(ms)) == "" && (InItems(ClassItems(Spell(ms)), c) <==> IsMember(ms, c))
  {
    if ms != [] {
      var body, tail := Spell(ms), Spell(ms[1..]);
      NeverClosed(ms[1..], c);
      IsMemberCons(ms, c);
      OnlyMember(ms[0], c);
      match ms[0]
      case One(x) =>
        assert body[1..] == tail;
        ItemsStep(body, c);
      case Between(lo, hi) =>
        assert body[3..] == tail;
        ItemsStep(body, c);
    }
  }

  /** A class that is never closed is taken as closed by the end of the pattern. */
  lemma UnclosedClassRule(negated: bool, sign: char, ms: seq<Member>, name: string)
    requires sign == '!' || sign == '^'
    requires Legible(ms) && (negated || (ms != [] && Spell(ms)[0] != '!' && Spell(ms)[0] != '^'))
    ensures Accepts(Tokens("[" + (if negated then [sign] else "") + Spell(ms)), name) <==>
              |name| == 1 && (IsMember(ms, name[0]) <==> !negated)
  {
    var text := "[" + (if negated then [sign] else "") + Spell(ms);
    var c := if name == "" then 'x' else name[0];
    NeverClosed(ms, c);
    assert ClassBody(text) == Spell(ms);
    AcceptsByteFirst(Class(negated, ClassItems(Spell(ms))), [], name);
    assert |name| > 0 ==> (name[1..] == "" <==> |name| == 1);
  }
}
