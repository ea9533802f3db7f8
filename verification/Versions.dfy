/** Release versions: parsing, comparison and the upgrade decision. */
module Versions {
  import opened Options
  import opened Keys

  // ----- parsing

  predicate IsDigits(s: string) {
    forall i :: 0 <= i < |s| ==> '0' <= s[i] <= '9'
  }

  function Value(s: string): nat
    requires IsDigits(s)
  {
    if s == "" then 0 else Value(s[..|s| - 1]) * 10 + (s[|s| - 1] as int - '0' as int)
  }

  /** `strconv.ParseInt(s, 10, 64)` on at most eight characters: an optional sign, then digits. */
  function ParseInt(s: string): Option<int> {
    var body := if s != "" && (s[0] == '+' || s[0] == '-') then s[1..] else s;
    if body == "" || !IsDigits(body) then None
    else if s[0] == '-' then Some(-(Value(body) as int))
    else Some(Value(body))
  }

  /** The suffix table; higher means newer. */
  function Priority(suffix: string): Option<nat> {
    if suffix == "HF" then Some(4)
    else if suffix == "CVE" then Some(3)
    else if suffix == "" then Some(2)
    else if suffix == "DEP" then Some(1)
    else if suffix == "DEV" then Some(0)
    else None
  }

  datatype Parsed = Parsed(date: int, suffix: string, hash: string, dev: bool)

  /** The part before the first hyphen, and the part after it if there is one. */
  function CutHash(rest: string): (string, string) {
    if rest == "" then ("", "")
    else if rest[0] == '-' then ("", rest[1..])
    else
      var (suffix, hash) := CutHash(rest[1..]);
      ([rest[0]] + suffix, hash)
  }

  function ParseVersion(v: string): Option<Parsed> {
    if v == "dev" then Some(Parsed(0, "", "", true))
    else if |v| < 8 then None
    else
      var date := ParseInt(v[..8]);
      if date == None || date.value < 10000000 || date.value > 99991231 then None
      else
        var (suffix, hash) := CutHash(v[8..]);
        if Priority(suffix) == None then None else Some(Parsed(date.value, suffix, hash, suffix == "DEV"))
  }

  // ----- comparing

  /** `strings.Compare` */
  function CompareStrings(a: string, b: string): int {
    if a == b then 0 else if Less(a, b) then -1 else 1
  }

  function CompareParsed(a: Parsed, b: Parsed): int {
    if a.date != b.date then if a.date < b.date then -1 else 1
    else
      var pa, pb := PriorityOrZero(a.suffix), PriorityOrZero(b.suffix);
      if pa != pb then if pa < pb then -1 else 1
      else CompareStrings(a.hash, b.hash)
  }

  /** A Go map yields zero for a missing key. */
  function PriorityOrZero(suffix: string): nat {
    if Priority(suffix).Some? then Priority(suffix).value else 0
  }

  function Compare(a: string, b: string): int {
    var va, vb := ParseVersion(a), ParseVersion(b);
    if va.Some? && vb.Some? then CompareParsed(va.value, vb.value) else CompareStrings(a, b)
  }

  predicate IsDevBuild(v: string) {
    v == "dev" || '-' in v
  }

  predicate IsUpgradeable(current: string, latest: string) {
    if latest == "" then false
    else if IsDevBuild(current) then !IsDevBuild(latest)
    else Compare(latest, current) > 0
  }

  predicate Recognised(v: string) {
    ParseVersion(v).Some?
  }

  // ----- the order

  lemma CompareStringsOrder(a: string, b: string, c: string)
    ensures CompareStrings(a, b) == -CompareStrings(b, a)
    ensures CompareStrings(a, b) <= 0 && CompareStrings(b, c) <= 0 ==> CompareStrings(a, c) <= 0
  {
    LessTotal(a, b);
    LessTotal(a, c);
    if Less(a, b) {
      LessAsymmetric(a, b);
      if Less(b, c) { LessTransitive(a, b, c); }
    }
  }

  /** On all strings, comparing the other way round gives the opposite answer. */
  lemma CompareAntisymmetric(a: string, b: string)
    ensures Compare(a, b) == -Compare(b, a) && -1 <= Compare(a, b) <= 1
  {
    CompareStringsOrder(a, b, b);
    if Recognised(a) && Recognised(b) {
      CompareStringsOrder(ParseVersion(a).value.hash, ParseVersion(b).value.hash, "");
    }
  }

  lemma CompareParsedTransitive(a: Parsed, b: Parsed, c: Parsed)
    requires CompareParsed(a, b) <= 0 && CompareParsed(b, c) <= 0
    ensures CompareParsed(a, c) <= 0
  {
    CompareStringsOrder(a.hash, b.hash, c.hash);
  }

  /** `Compare` is transitive unless exactly two of its three arguments are recognised. */
  lemma CompareTransitiveWithinClass(a: string, b: string, c: string)
    requires (Recognised(a) && Recognised(b) && Recognised(c))
             || (!Recognised(a) && !Recognised(b)) || (!Recognised(a) && !Recognised(c))
             || (!Recognised(b) && !Recognised(c))
    requires Compare(a, b) <= 0 && Compare(b, c) <= 0
    ensures Compare(a, c) <= 0
  {
    if Recognised(a) && Recognised(b) && Recognised(c) {
      CompareParsedTransitive(ParseVersion(a).value, ParseVersion(b).value, ParseVersion(c).value);
    } else {
      CompareStringsOrder(a, b, c);
    }
  }

  /** An unrecognised version stands, as a string, between two recognised ones that do not compare that way. */
  predicate Twisted(x: string, u: string, y: string) {
    && Recognised(x) && Recognised(y) && !Recognised(u)
    && Less(x, u) && Less(u, y) && Compare(x, y) >= 0
  }

  ghost predicate IsPreorderOn(vs: set<string>) {
    forall a, b, c :: a in vs && b in vs && c in vs && Compare(a, b) <= 0 && Compare(b, c) <= 0 ==> Compare(a, c) <= 0
  }

  /** Whatever fails to be transitive is twisted. */
  lemma IntransitiveIsTwisted(a: string, b: string, c: string)
    requires Compare(a, b) <= 0 && Compare(b, c) <= 0 && Compare(a, c) > 0
    ensures Twisted(c, a, b) || Twisted(a, b, c) || Twisted(b, c, a)
  {
    LessTotal(a, b);
    LessTotal(b, c);
    LessTotal(a, c);
    CompareAntisymmetric(a, b);
    CompareAntisymmetric(b, c);
    CompareAntisymmetric(a, c);
    if (Recognised(a) && Recognised(b) && Recognised(c))
       || (!Recognised(a) && !Recognised(b)) || (!Recognised(a) && !Recognised(c))
       || (!Recognised(b) && !Recognised(c)) {
      CompareTransitiveWithinClass(a, b, c);
    }
  }

  /** A twisted triple is not ordered. */
  lemma TwistedIsIntransitive(x: string, u: string, y: string)
    requires Twisted(x, u, y)
    ensures !IsPreorderOn({x, u, y})
  {
    LessAsymmetric(x, u);
    LessAsymmetric(u, y);
    CompareAntisymmetric(x, y);
    CompareAntisymmetric(x, u);
    assert Compare(x, u) < 0 && Compare(u, y) < 0 && Compare(u, x) > 0 && Compare(y, x) <= 0;
  }

  /** On any set of versions `Compare` is a preorder exactly when no unrecognised version of the set stands, as a
      string, between two recognised ones that do not compare the same way. */
  lemma PreorderIff(vs: set<string>)
    ensures IsPreorderOn(vs) <==> forall x, u, y :: x in vs && u in vs && y in vs ==> !Twisted(x, u, y)
  {
    if IsPreorderOn(vs) {
      forall x, u, y | x in vs && u in vs && y in vs ensures !Twisted(x, u, y) {
        if Twisted(x, u, y) { TwistedIsIntransitive(x, u, y); }
      }
    } else {
      var a, b, c :| a in vs && b in vs && c in vs && Compare(a, b) <= 0 && Compare(b, c) <= 0 && Compare(a, c) > 0;
      IntransitiveIsTwisted(a, b, c);
    }
  }

  lemma PriorityInjective(s: string, t: string)
    requires Priority(s).Some? && Priority(s) == Priority(t)
    ensures s == t
  {
  }

  /** On recognised versions the answer is 0 exactly when date, suffix and hash agree. */
  lemma CompareZeroIff(a: string, b: string)
    requires Recognised(a) && Recognised(b)
    ensures Compare(a, b) == 0 <==>
              var va, vb := ParseVersion(a).value, ParseVersion(b).value;
              va.date == vb.date && va.suffix == vb.suffix && va.hash == vb.hash
  {
    var va, vb := ParseVersion(a).value, ParseVersion(b).value;
    if Priority(va.suffix) == Priority(vb.suffix) && Priority(va.suffix).Some? {
      PriorityInjective(va.suffix, vb.suffix);
    }
  }

  lemma {:induction false} ValueBound(s: string)
    requires IsDigits(s)
    ensures Value(s) < Power10(|s|)
  {
    if s != "" { ValueBound(s[..|s| - 1]); }
  }

  function Power10(n: nat): nat {
    if n == 0 then 1 else 10 * Power10(n - 1)
  }

  lemma {:induction false} ValueInjective(s: string, t: string)
    requires IsDigits(s) && IsDigits(t) && |s| == |t| && Value(s) == Value(t)
    ensures s == t
  {
    if s != "" {
      var n := |s| - 1;
      ValueInjective(s[..n], t[..n]);
      assert s == s[..n] + [s[n]] && t == t[..n] + [t[n]];
    }
  }

  /** A recognised date is eight digits: a sign would leave too few of them. */
  lemma DateIsDigits(v: string)
    requires Recognised(v) && v != "dev"
    ensures |v| >= 8 && IsDigits(v[..8]) && ParseVersion(v).value.date == Value(v[..8])
  {
    var s := v[..8];
    assert Power10(7) == 10000000;
    if s[0] == '+' || s[0] == '-' { ValueBound(s[1..]); }
  }

  lemma {:induction false} CutHashAgain(rest: string)
    ensures var (suffix, hash) := CutHash(rest);
            rest == suffix + "-" + hash || (rest == suffix && hash == "")
  {
    if rest != "" {
      assert rest == [rest[0]] + rest[1..];
      if rest[0] != '-' { CutHashAgain(rest[1..]); }
    }
  }

  lemma {:induction false} CutNoHyphen(rest: string)
    requires '-' !in rest
    ensures CutHash(rest) == (rest, "")
  {
    if rest != "" {
      CutNoHyphen(rest[1..]);
      assert rest == [rest[0]] + rest[1..];
    }
  }

  /** Versions that compare equal are the same text, but for a hyphen with nothing behind it. */
  lemma EqualVersions(a: string, b: string)
    requires Recognised(a) && Recognised(b) && Compare(a, b) == 0
    ensures a == b || a == b + "-" || b == a + "-"
  {
    CompareZeroIff(a, b);
    if a == "dev" || b == "dev" {
      if a != "dev" { DateIsDigits(a); }
      if b != "dev" { DateIsDigits(b); }
    } else {
      DateIsDigits(a);
      DateIsDigits(b);
      ValueInjective(a[..8], b[..8]);
      CutHashAgain(a[8..]);
      CutHashAgain(b[8..]);
      assert a == a[..8] + a[8..] && b == b[..8] + b[8..];
    }
  }

  // ----- which one is newer

  lemma {:induction false} LessExtends(s: string, t: string, x: string, y: string)
    requires |s| == |t| && Less(s, t)
    ensures Less(s + x, t + y)
  {
    assert (s + x)[1..] == s[1..] + x && (t + y)[1..] == t[1..] + y;
    if s[0] == t[0] { LessExtends(s[1..], t[1..], x, y); }
  }

  /** Numbers of equal length are in the order of their digits. */
  lemma {:induction false} ValueOrder(s: string, t: string)
    requires IsDigits(s) && IsDigits(t) && |s| == |t| && Less(s, t)
    ensures Value(s) < Value(t)
  {
    var n := |s| - 1;
    var (q, r) := (s[..n], t[..n]);
    assert s == q + [s[n]] && t == r + [t[n]];
    LessTotal(q, r);
    if q == r {
      SharedFront(q, [s[n]], [t[n]]);
    } else if Less(q, r) {
      ValueOrder(q, r);
    } else {
      LessExtends(r, q, [t[n]], [s[n]]);
      LessAsymmetric(s, t);
    }
  }

  lemma ValueOrderIff(s: string, t: string)
    requires IsDigits(s) && IsDigits(t) && |s| == |t|
    ensures Less(s, t) <==> Value(s) < Value(t)
  {
    LessTotal(s, t);
    if Less(s, t) { ValueOrder(s, t); }
    if Less(t, s) { ValueOrder(t, s); }
  }

  lemma Bounds()
    ensures Value("10000000") == 10000000 && Value("99991231") == 99991231
  {
    assert "10000000"[..7] == "1000000" && "1000000"[..6] == "100000" && "100000"[..5] == "10000";
    assert "10000"[..4] == "1000" && "1000"[..3] == "100" && "100"[..2] == "10" && "10"[..1] == "1" && "1"[..0] == "";
    assert Value("1000") == 1000;
    assert "99991231"[..7] == "9999123" && "9999123"[..6] == "999912" && "999912"[..5] == "99991";
    assert "99991"[..4] == "9999" && "9999"[..3] == "999" && "999"[..2] == "99" && "99"[..1] == "9" && "9"[..0] == "";
    assert Value("9999") == 9999;
  }

  /** The grammar: a date of eight digits in range, one of five suffixes, and a hash behind a hyphen. */
  ghost predicate Spells(v: string, date: string, suffix: string, hash: string) {
    && |date| == 8 && (forall i :: 0 <= i < 8 ==> '0' <= date[i] <= '9')
    && !Less(date, "10000000") && !Less("99991231", date)
    && suffix in ["DEV", "DEP", "", "CVE", "HF"]
    && (v == date + suffix + "-" + hash || (v == date + suffix && hash == ""))
  }

  lemma {:induction false} CutAtHyphen(suffix: string, hash: string)
    requires '-' !in suffix
    ensures CutHash(suffix + "-" + hash) == (suffix, hash)
  {
    var rest := suffix + "-" + hash;
    if suffix == "" {
      assert rest == "-" + hash && rest[1..] == hash;
    } else {
      assert rest[1..] == suffix[1..] + "-" + hash;
      CutAtHyphen(suffix[1..], hash);
      assert suffix == [suffix[0]] + suffix[1..];
    }
  }

  lemma NoHyphenInSuffix(suffix: string)
    requires Priority(suffix).Some?
    ensures '-' !in suffix
  {
  }

  lemma SuffixTable(suffix: string)
    ensures Priority(suffix).Some? <==> suffix in ["DEV", "DEP", "", "CVE", "HF"]
  {
    var table := ["DEV", "DEP", "", "CVE", "HF"];
    assert table[0] == "DEV" && table[1] == "DEP" && table[2] == "" && table[3] == "CVE" && table[4] == "HF";
  }

  lemma InRangeIff(date: string)
    requires |date| == 8 && IsDigits(date)
    ensures 10000000 <= Value(date) <= 99991231 <==> !Less(date, "10000000") && !Less("99991231", date)
  {
    Bounds();
    ValueOrderIff(date, "10000000");
    ValueOrderIff("99991231", date);
  }

  lemma SpelledIsParsed(v: string, date: string, suffix: string, hash: string)
    requires Spells(v, date, suffix, hash)
    ensures IsDigits(date) && 10000000 <= Value(date)
    ensures ParseVersion(v) == Some(Parsed(Value(date), suffix, hash, suffix == "DEV"))
  {
    InRangeIff(date);
    SuffixTable(suffix);
    NoHyphenInSuffix(suffix);
    CutNoHyphen(suffix);
    CutAtHyphen(suffix, hash);
    assert v[..8] == date;
    assert v[8..] == suffix || v[8..] == suffix + "-" + hash;
    assert v != "dev";
  }

  /** What is recognised: the word "dev", and what the grammar spells. */
  lemma RecognisedIff(v: string)
    ensures Recognised(v) <==> v == "dev" || exists date, suffix, hash :: Spells(v, date, suffix, hash)
  {
    if v != "dev" && Recognised(v) {
      var (suffix, hash) := CutHash(v[8..]);
      DateIsDigits(v);
      InRangeIff(v[..8]);
      SuffixTable(suffix);
      CutHashAgain(v[8..]);
      assert v == v[..8] + v[8..];
      assert v[8..] == suffix + "-" + hash ==> v == v[..8] + suffix + "-" + hash;
      assert Spells(v, v[..8], suffix, hash);
    } else if date, suffix, hash :| Spells(v, date, suffix, hash) {
      SpelledIsParsed(v, date, suffix, hash);
    }
  }

  lemma RankOf(i: nat)
    requires i < 5
    ensures PriorityOrZero(["DEV", "DEP", "", "CVE", "HF"][i]) == i
  {
    var table := ["DEV", "DEP", "", "CVE", "HF"];
    assert table[0] == "DEV" && table[1] == "DEP" && table[2] == "" && table[3] == "CVE" && table[4] == "HF";
  }

  lemma ParsedOlderIff(va: Parsed, vb: Parsed)
    ensures CompareParsed(va, vb) == -1 <==>
              || va.date < vb.date
              || (va.date == vb.date &&
                  (PriorityOrZero(va.suffix) < PriorityOrZero(vb.suffix) ||
                   (PriorityOrZero(va.suffix) == PriorityOrZero(vb.suffix) && Less(va.hash, vb.hash))))
  {
    LessIrreflexive(va.hash);
  }

  /** The earlier date is older; on one day DEV is older than DEP, that than a plain release, that than CVE and
      that than HF; and of two with one suffix the hash decides, byte by byte. */
  lemma OlderIff(a: string, dateA: string, i: nat, hashA: string, b: string, dateB: string, j: nat, hashB: string)
    requires i < 5 && Spells(a, dateA, ["DEV", "DEP", "", "CVE", "HF"][i], hashA)
    requires j < 5 && Spells(b, dateB, ["DEV", "DEP", "", "CVE", "HF"][j], hashB)
    ensures Compare(a, b) == -1 <==>
              || Less(dateA, dateB)
              || (dateA == dateB && (i < j || (i == j && Less(hashA, hashB))))
  {
    var (suffixA, suffixB) := (["DEV", "DEP", "", "CVE", "HF"][i], ["DEV", "DEP", "", "CVE", "HF"][j]);
    RankOf(i);
    RankOf(j);
    SpelledIsParsed(a, dateA, suffixA, hashA);
    SpelledIsParsed(b, dateB, suffixB, hashB);
    ParsedOlderIff(ParseVersion(a).value, ParseVersion(b).value);
    ValueOrderIff(dateA, dateB);
    ValueOrderIff(dateB, dateA);
    if Value(dateA) == Value(dateB) { ValueInjective(dateA, dateB); }
    LessIrreflexive(dateA);
  }

  /** The word "dev" is older than whatever has a date. */
  lemma DevIsOldest(v: string)
    requires Recognised(v)
    ensures Compare("dev", v) == if v == "dev" then 0 else -1
  {
    if v != "dev" {
      RecognisedIff(v);
      var date, suffix, hash :| Spells(v, date, suffix, hash);
      SpelledIsParsed(v, date, suffix, hash);
    }
  }

  /** Anything outside the grammar is compared as text. */
  lemma UnrecognisedIsText(a: string, b: string)
    requires !Recognised(a) || !Recognised(b)
    ensures Compare(a, b) == -1 <==> Less(a, b)
    ensures Compare(a, b) == 0 <==> a == b
  {
    LessIrreflexive(a);
  }

  // ----- upgrades

  predicate Release(v: string) {
    Recognised(v) && !IsDevBuild(v)
  }

  /** Each version of the chain upgrades to the next. */
  predicate IsChain(vs: seq<string>) {
    |vs| > 0 && forall i :: 0 <= i < |vs| - 1 ==> IsUpgradeable(vs[i], vs[i + 1])
  }

  /** A chain of upgrades within `vs` that leads back to where it started. */
  ghost predicate IsCircle(chain: seq<string>, vs: set<string>) {
    && IsChain(chain) && IsUpgradeable(chain[|chain| - 1], chain[0])
    && forall i :: 0 <= i < |chain| ==> chain[i] in vs
  }

  lemma StrictlyBelow(a: string, b: string, c: string, vs: set<string>)
    requires IsPreorderOn(vs) && a in vs && b in vs && c in vs
    requires Compare(a, b) < 0 && Compare(b, c) < 0
    ensures Compare(a, c) < 0
  {
    CompareAntisymmetric(a, b);
    CompareAntisymmetric(a, c);
    CompareAntisymmetric(b, c);
  }

  /** Upgrades between versions other than dev builds climb, as long as the versions are in order. */
  lemma {:induction false} UpgradesClimb(chain: seq<string>, vs: set<string>)
    requires IsChain(chain) && |chain| > 1 && IsPreorderOn(vs)
    requires forall i :: 0 <= i < |chain| ==> chain[i] in vs && !IsDevBuild(chain[i])
    ensures Compare(chain[0], chain[|chain| - 1]) < 0
  {
    var n := |chain| - 1;
    var first, last := chain[0], chain[n];
    CompareAntisymmetric(last, chain[n - 1]);
    if n > 1 {
      UpgradesClimb(chain[..n], vs);
      StrictlyBelow(first, chain[n - 1], last, vs);
    }
  }

  /** A dev build that `r` is offered, and that is then offered `r` back. */
  predicate Swaps(d: string, r: string) {
    IsDevBuild(d) && !IsDevBuild(r) && r != "" && Compare(d, r) > 0
  }

  lemma SwapIsCircle(d: string, r: string, vs: set<string>)
    requires Swaps(d, r) && d in vs && r in vs
    ensures IsCircle([r, d], vs)
  {
    assert d != "";
  }

  lemma TwistIsCircle(x: string, u: string, y: string, vs: set<string>)
    requires Twisted(x, u, y) && x in vs && u in vs && y in vs
    requires !IsDevBuild(x) && !IsDevBuild(u) && !IsDevBuild(y)
    ensures IsCircle([x, u, y], vs)
  {
    if Compare(x, y) == 0 {
      EqualVersions(x, y);
      NoTrailingHyphen(x, y);
      LessTransitive(x, u, y);
      LessIrreflexive(x);
    }
    TwistedUpgradesCycle(x, u, y);
  }

  lemma NoTrailingHyphen(x: string, y: string)
    requires !IsDevBuild(x) && !IsDevBuild(y) && (x == y || x == y + "-" || y == x + "-")
    ensures x == y
  {
    assert (y + "-")[|y|] == '-' && (x + "-")[|x|] == '-';
  }

  lemma NoEmptyLatest(chain: seq<string>, vs: set<string>, i: nat)
    requires IsCircle(chain, vs) && i < |chain|
    ensures chain[i] != ""
  {
    if i > 0 { assert IsUpgradeable(chain[i - 1], chain[i]); }
  }

  /** In a circle a dev build comes right after a release that it beats. */
  lemma DevBuildInCircle(chain: seq<string>, vs: set<string>, i: nat)
    requires IsCircle(chain, vs) && i < |chain| && IsDevBuild(chain[i])
    ensures Swaps(chain[i], chain[if i > 0 then i - 1 else |chain| - 1])
  {
    var before := if i > 0 then i - 1 else |chain| - 1;
    assert IsUpgradeable(chain[before], chain[i]);
    NoEmptyLatest(chain, vs, before);
  }

  /** What makes upgrades within `vs` go round. */
  ghost predicate HasCause(vs: set<string>) {
    || (exists d, r :: d in vs && r in vs && Swaps(d, r))
    || (exists x, u, y :: x in vs && u in vs && y in vs && Twisted(x, u, y)
                          && !IsDevBuild(x) && !IsDevBuild(u) && !IsDevBuild(y))
  }

  lemma CircleHasCause(chain: seq<string>, vs: set<string>)
    requires IsCircle(chain, vs)
    ensures HasCause(vs)
  {
    if i :| 0 <= i < |chain| && IsDevBuild(chain[i]) {
      DevBuildInCircle(chain, vs, i);
    } else {
      var others, n := set v | v in vs && !IsDevBuild(v), |chain| - 1;
      PreorderIff(others);
      CompareAntisymmetric(chain[0], chain[n]);
      if IsPreorderOn(others) && n > 0 { UpgradesClimb(chain, others); }
    }
  }

  /** Within any set of versions some chain of upgrades leads back to where it started exactly when a version
      that is no dev build is offered one, or some twisted triple holds no dev build. */
  lemma UpgradesCycleIff(vs: set<string>)
    ensures (exists chain :: IsCircle(chain, vs)) <==> HasCause(vs)
  {
    if d, r :| d in vs && r in vs && Swaps(d, r) {
      SwapIsCircle(d, r, vs);
    } else if x, u, y :| x in vs && u in vs && y in vs && Twisted(x, u, y)
                         && !IsDevBuild(x) && !IsDevBuild(u) && !IsDevBuild(y) {
      TwistIsCircle(x, u, y, vs);
    }
    if chain :| IsCircle(chain, vs) { CircleHasCause(chain, vs); }
  }

  /** A build with a hyphen and the word "dev" are offered anything else; every other version is offered what it
      compares older than. */
  lemma UpgradeableIff(current: string, latest: string)
    ensures IsUpgradeable(current, latest) <==>
              && latest != ""
              && if current == "dev" || '-' in current then latest != "dev" && '-' !in latest
                 else Compare(current, latest) == -1
  {
    CompareAntisymmetric(current, latest);
  }

  /** Of two plain dated releases the one with the later date is the upgrade. */
  lemma LaterDateIsUpgrade(current: string, latest: string)
    requires Spells(current, current, "", "") && Spells(latest, latest, "", "")
    ensures IsUpgradeable(current, latest) <==> Less(current, latest)
  {
    UpgradeableIff(current, latest);
    LessIrreflexive(current);
    OlderIff(current, current, 2, "", latest, latest, 2, "");
  }

  /** No chain of upgrades between recognised releases ever leads back to where it started. */
  lemma UpgradesNeverCycle(chain: seq<string>)
    requires IsChain(chain) && forall i :: 0 <= i < |chain| ==> Release(chain[i])
    ensures !IsUpgradeable(chain[|chain| - 1], chain[0])
  {
    var vs := set v | v in chain;
    if IsUpgradeable(chain[|chain| - 1], chain[0]) {
      assert IsCircle(chain, vs);
      UpgradesCycleIff(vs);
    }
  }

  /** Every twisted triple of releases whose recognised two differ is a circle of upgrades. */
  lemma TwistedUpgradesCycle(x: string, u: string, y: string)
    requires Twisted(x, u, y) && Compare(x, y) != 0 && !IsDevBuild(x) && !IsDevBuild(u) && !IsDevBuild(y)
    ensures IsUpgradeable(y, x) && IsUpgradeable(x, u) && IsUpgradeable(u, y)
  {
    LessAsymmetric(x, u);
    LessAsymmetric(u, y);
    CompareAntisymmetric(x, y);
    CompareAntisymmetric(x, u);
  }

  lemma Parse20260101(rest: string)
    ensures ParseVersion("20260101" + rest) ==
            var (suffix, hash) := CutHash(rest);
            if Priority(suffix) == None then None else Some(Parsed(20260101, suffix, hash, suffix == "DEV"))
  {
    var v := "20260101" + rest;
    assert v[..8] == "20260101" && v[8..] == rest;
    assert "20260101"[..7] == "2026010" && "2026010"[..6] == "202601" && "202601"[..5] == "20260";
    assert "20260"[..4] == "2026" && "2026"[..3] == "202" && "202"[..2] == "20" && "20"[..1] == "2" && "2"[..0] == "";
    assert Value("2026") == 2026;
    assert Value("20260101") == 20260101;
  }

  lemma ThreeOfOneDay()
    ensures ParseVersion("20260101") == Some(Parsed(20260101, "", "", false))
    ensures ParseVersion("20260101DEP") == Some(Parsed(20260101, "DEP", "", false))
    ensures ParseVersion("20260101A") == None
  {
    var day := "20260101";
    Parse20260101("");
    Parse20260101("A");
    Parse20260101("DEP");
    assert day + "" == day && day + "A" == "20260101A" && day + "DEP" == "20260101DEP";
    CutNoHyphen("A");
    CutNoHyphen("DEP");
  }

  lemma SpelledInOrder()
    ensures Less("20260101", "20260101A") && Less("20260101A", "20260101DEP")
  {
    var day := "20260101";
    assert day + "" == day && day + "A" == "20260101A" && day + "DEP" == "20260101DEP";
    SharedFront(day, "", "A");
    SharedFront(day, "A", "DEP");
  }

  lemma PlainBeatsDep(x: string, y: string)
    requires ParseVersion(x) == Some(Parsed(20260101, "", "", false))
    requires ParseVersion(y) == Some(Parsed(20260101, "DEP", "", false))
    ensures Compare(x, y) == 1
  {
  }

  lemma NoHyphens()
    ensures !IsDevBuild("20260101") && !IsDevBuild("20260101DEP") && !IsDevBuild("20260101A")
  {
    assert '-' !in "20260101" && '-' !in "20260101DEP" && '-' !in "20260101A";
  }

  lemma CircleOf(x: string, u: string, y: string)
    requires ParseVersion(x) == Some(Parsed(20260101, "", "", false)) && ParseVersion(u) == None
    requires ParseVersion(y) == Some(Parsed(20260101, "DEP", "", false))
    requires Less(x, u) && Less(u, y) && !IsDevBuild(x) && !IsDevBuild(u) && !IsDevBuild(y)
    ensures IsUpgradeable(y, x) && IsUpgradeable(x, u) && IsUpgradeable(u, y)
  {
    PlainBeatsDep(x, y);
    TwistedUpgradesCycle(x, u, y);
  }

  /** Across the two classes the lexical fallback breaks transitivity, and upgrades do cycle. */
  lemma MixedVersionsCycle()
    ensures IsUpgradeable("20260101DEP", "20260101") && IsUpgradeable("20260101", "20260101A")
    ensures IsUpgradeable("20260101A", "20260101DEP")
  {
    ThreeOfOneDay();
    SpelledInOrder();
    NoHyphens();
    CircleOf("20260101", "20260101A", "20260101DEP");
  }

  /** Despite the stated rule a release is offered a development build, exactly when it compares newer; only
      a development build is never offered another one. */
  lemma DevBuildsAsUpgrades(current: string, latest: string)
    requires Recognised(current) && Recognised(latest) && IsDevBuild(latest)
    ensures IsUpgradeable(current, latest) <==> !IsDevBuild(current) && Compare(current, latest) < 0
  {
    CompareAntisymmetric(current, latest);
  }
}
