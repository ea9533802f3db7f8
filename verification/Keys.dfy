/** Database keys in the order both backends keep them, and the two ways of scanning a prefix.
    One `char` stands for one byte. */
module Keys {
  import opened Options

  /** Bytewise lexicographic order. */
  predicate Less(a: string, b: string) {
    b != "" && (a == "" || a[0] < b[0] || (a[0] == b[0] && Less(a[1..], b[1..])))
  }

  /** `a` comes first when it ends, or has the lower byte, where the two first differ. */
  lemma {:induction false} LessIff(a: string, b: string)
    ensures Less(a, b) <==>
              exists i :: 0 <= i < |b| && i <= |a| && a[..i] == b[..i] && (i == |a| || a[i] < b[i])
  {
    if a != "" && b != "" && a[0] == b[0] {
      LessIff(a[1..], b[1..]);
      if i :| 0 <= i < |b| && i <= |a| && a[..i] == b[..i] && (i == |a| || a[i] < b[i]) {
        assert i > 0;
        assert a[1..][..i - 1] == a[..i][1..] && b[1..][..i - 1] == b[..i][1..];
      }
      if i :| 0 <= i < |b| - 1 && i <= |a| - 1 && a[1..][..i] == b[1..][..i] && (i == |a| - 1 || a[i + 1] < b[i + 1]) {
        assert a[..i + 1] == [a[0]] + a[1..][..i] && b[..i + 1] == [b[0]] + b[1..][..i];
      }
    } else if b != "" {
      assert a[..0] == b[..0];
      assert Less(a, b) <==> a == "" || a[0] < b[0];
      forall i | 0 < i < |b| && i <= |a| ensures a[..i] != b[..i] {
        assert a[..i][0] == a[0] && b[..i][0] == b[0];
      }
    }
  }

  predicate IsBytes(s: string) {
    forall i :: 0 <= i < |s| ==> s[i] as int < 256
  }

  ghost predicate Ascending(ks: seq<string>) {
    forall i, j :: 0 <= i < j < |ks| ==> Less(ks[i], ks[j])
  }

  lemma {:induction false} LessIrreflexive(a: string)
    ensures !Less(a, a)
  {
    if a != "" { LessIrreflexive(a[1..]); }
  }

  lemma {:induction false} LessTransitive(a: string, b: string, c: string)
    requires Less(a, b) && Less(b, c)
    ensures Less(a, c)
  {
    if a != "" && a[0] == b[0] == c[0] { LessTransitive(a[1..], b[1..], c[1..]); }
  }

  lemma {:induction false} LessTotal(a: string, b: string)
    ensures a == b || Less(a, b) || Less(b, a)
  {
    if a != "" && b != "" && a[0] == b[0] {
      LessTotal(a[1..], b[1..]);
      assert a == [a[0]] + a[1..] && b == [b[0]] + b[1..];
    }
  }

  lemma LessAsymmetric(a: string, b: string)
    requires Less(a, b)
    ensures !Less(b, a) && a != b
  {
    LessIrreflexive(a);
    if Less(b, a) { LessTransitive(a, b, a); }
  }

  // ----- the order of a bucket

  function Inserted(ks: seq<string>, k: string): seq<string> {
    if ks == [] then [k]
    else if Less(k, ks[0]) then [k] + ks
    else [ks[0]] + Inserted(ks[1..], k)
  }

  lemma {:induction false} InsertedAscending(ks: seq<string>, k: string)
    requires Ascending(ks) && k !in ks
    ensures Ascending(Inserted(ks, k)) && forall x :: x in Inserted(ks, k) <==> x == k || x in ks
  {
    if ks == [] {
    } else if Less(k, ks[0]) {
      forall i | 0 < i < |ks| ensures Less(k, ks[i]) { LessTransitive(k, ks[0], ks[i]); }
    } else {
      LessTotal(k, ks[0]);
      InsertedAscending(ks[1..], k);
      var rest := Inserted(ks[1..], k);
      forall i | 0 <= i < |rest| ensures Less(ks[0], rest[i]) {
        assert rest[i] == k || rest[i] in ks[1..];
      }
    }
  }

  /** A bucket's keys in cursor order. */
  method Cursor(keys: set<string>) returns (ks: seq<string>)
    ensures Ascending(ks) && forall k :: k in ks <==> k in keys
  {
    ks := [];
    var todo := keys;
    while todo != {}
      invariant todo <= keys && Ascending(ks)
      invariant forall k :: k in ks <==> k in keys - todo
      decreases |todo|
    {
      var k :| k in todo;
      InsertedAscending(ks, k);
      ks := Inserted(ks, k);
      todo := todo - {k};
    }
  }

  /** Cursor order is determined by the keys. */
  lemma {:induction false} AscendingUnique(ks: seq<string>, ls: seq<string>)
    requires Ascending(ks) && Ascending(ls)
    requires forall k :: k in ks <==> k in ls
    ensures ks == ls
  {
    if ks == [] {
      assert forall i :: 0 <= i < |ls| ==> ls[i] in ls;
    } else {
      assert ks[0] in ls && ls[0] in ks;
      var i :| 0 <= i < |ls| && ls[i] == ks[0];
      var j :| 0 <= j < |ks| && ks[j] == ls[0];
      if i > 0 && j > 0 { LessAsymmetric(ks[0], ls[0]); }
      assert ks[0] == ls[0];
      forall k ensures k in ks[1..] <==> k in ls[1..] {
        LessIrreflexive(ks[0]);
        assert k in ks <==> k == ks[0] || k in ks[1..];
        assert k in ls <==> k == ls[0] || k in ls[1..];
      }
      AscendingUnique(ks[1..], ls[1..]);
    }
  }

  // ----- composite keys

  predicate Plain(name: string) {
    ':' !in name
  }

  /** In a composite key the first colon ends a colon-free first part. */
  lemma FirstColon(name: string, rest: string)
    requires Plain(name)
    ensures var key := name + ":" + rest;
            key[|name|] == ':' && forall i :: 0 <= i < |name| ==> key[i] != ':'
  {
    forall i | 0 <= i < |name| ensures (name + ":" + rest)[i] != ':' {
      assert (name + ":" + rest)[i] == name[i];
    }
  }

  lemma CompositeInjective(u: string, x: string, v: string, y: string)
    requires Plain(u) && Plain(v) && u + ":" + x == v + ":" + y
    ensures u == v && x == y
  {
    var key := u + ":" + x;
    FirstColon(u, x);
    FirstColon(v, y);
    assert |u| == |v|;
    assert u == key[..|u|] == v;
    assert x == key[|u| + 1..] == y;
  }

  /** A scan for a colon-free name reaches exactly the composite keys that start with that name. */
  lemma OwnPrefix(u: string, v: string, y: string)
    requires Plain(u) && Plain(v)
    ensures u + ":" <= v + ":" + y <==> u == v
  {
    var key := v + ":" + y;
    assert key == (v + ":") + y;
    FirstColon(v, y);
    if u + ":" <= key {
      assert forall i :: 0 <= i < |u| ==> key[i] == (u + ":")[i] == u[i];
      assert key[|u|] == (u + ":")[|u|] == ':';
      assert |u| == |v|;
      assert u == key[..|u|] == v;
    }
  }

  // ----- bbolt: seek and step

  /** A key at or after the prefix that does not have it lies after every key that does. */
  lemma {:induction false} PastPrefix(k: string, later: string, prefix: string)
    requires !Less(k, prefix) && !(prefix <= k) && (k == later || Less(k, later))
    ensures !(prefix <= later)
  {
    if prefix <= later {
      if prefix == "" {
      } else {
        assert k != "" && later != "";
        if k[0] == prefix[0] {
          assert prefix == [prefix[0]] + prefix[1..];
          assert later[0] == prefix[0] && prefix[1..] <= later[1..];
          assert k == [k[0]] + k[1..];
          PastPrefix(k[1..], later[1..], prefix[1..]);
        }
      }
    }
  }

  lemma {:induction false} PrefixNotLess(k: string, prefix: string)
    requires prefix <= k
    ensures !Less(k, prefix)
  {
    if prefix != "" { PrefixNotLess(k[1..], prefix[1..]); }
  }

  /** `Cursor.Seek`: the first position at or after `prefix`. */
  method Seek(ks: seq<string>, prefix: string) returns (i: nat)
    requires Ascending(ks)
    ensures i <= |ks|
    ensures forall j :: 0 <= j < i ==> Less(ks[j], prefix)
    ensures i < |ks| ==> !Less(ks[i], prefix)
  {
    i := 0;
    while i < |ks| && Less(ks[i], prefix)
      invariant i <= |ks| && forall j :: 0 <= j < i ==> Less(ks[j], prefix)
    {
      i := i + 1;
    }
  }

  /** `BucketForEachPrefix` on bbolt: the loop stops at the first key without the prefix, yet visits every
      key that has it, in order. */
  method ScanPrefix<V>(bucket: map<string, V>, prefix: string) returns (hits: seq<string>)
    ensures Ascending(hits) && forall k :: k in hits <==> k in bucket && prefix <= k
  {
    var ks := Cursor(bucket.Keys);
    var i := Seek(ks, prefix);
    ghost var start := i;
    hits := [];
    while i < |ks| && ks[i][..if |ks[i]| < |prefix| then |ks[i]| else |prefix|] == prefix
      invariant start <= i <= |ks| && hits == ks[start..i]
      invariant forall j :: start <= j < i ==> prefix <= ks[j]
    {
      hits := hits + [ks[i]];
      i := i + 1;
    }
    forall j | 0 <= j < |ks| && prefix <= ks[j] ensures start <= j < i {
      PrefixNotLess(ks[j], prefix);
      if i <= j {
        NotLessAfter(ks, start, i, prefix);
        PastPrefix(ks[i], ks[j], prefix);
      }
    }
    forall k | k in bucket && prefix <= k ensures k in hits {
      var j :| 0 <= j < |ks| && ks[j] == k;
      assert hits[j - start] == k;
    }
  }

  lemma NotLessAfter(ks: seq<string>, start: nat, i: nat, prefix: string)
    requires Ascending(ks) && start <= i < |ks| && !Less(ks[start], prefix)
    ensures !Less(ks[i], prefix)
  {
    if start < i && Less(ks[i], prefix) { LessTransitive(ks[start], ks[i], prefix); }
  }

  /** `ForEachPrefix`: follows each index entry into the target bucket and skips dangling ones. */
  method ScanIndex<V>(index: map<string, string>, target: map<string, V>, prefix: string)
      returns (hits: seq<(string, V)>)
    ensures forall i, j :: 0 <= i < j < |hits| ==> Less(hits[i].0, hits[j].0)
    ensures forall k, v :: (k, v) in hits <==> k in index && prefix <= k && index[k] in target && target[index[k]] == v
  {
    var ks := ScanPrefix(index, prefix);
    hits := [];
    for i := 0 to |ks|
      invariant forall a, b :: 0 <= a < b < |hits| ==> Less(hits[a].0, hits[b].0)
      invariant forall h :: h in hits ==> h.0 in ks[..i]
      invariant forall k, v :: (k, v) in hits <==>
                  k in ks[..i] && k in index && index[k] in target && target[index[k]] == v
    {
      assert forall a :: 0 <= a < |hits| ==> hits[a] in hits && hits[a].0 in ks[..i];
      assert ks[..i + 1] == ks[..i] + [ks[i]];
      if index[ks[i]] in target {
        hits := hits + [(ks[i], target[index[ks[i]]])];
      }
    }
    assert ks[..|ks|] == ks;
  }

  // ----- Mongo: a half-open range of keys

  /** Go's `string(b)` for a byte `b`: the UTF-8 encoding of the code point. */
  function RuneBytes(b: nat): string
    requires b < 256
  {
    if b < 128 then [b as char] else [(192 + b / 64) as char, (128 + b % 64) as char]
  }

  /** One byte below 128; above, a lead byte with the two top bits set and a trailing one with the top bit, which
      hold the upper bits and the lower six. */
  lemma RuneDecodes(b: nat)
    requires b < 256
    ensures b < 128 ==> RuneBytes(b) == [b as char]
    ensures b >= 128 ==>
              && |RuneBytes(b)| == 2 && 0xC0 <= RuneBytes(b)[0] as int < 0xE0 && 0x80 <= RuneBytes(b)[1] as int < 0xC0
              && (RuneBytes(b)[0] as int - 0xC0) * 64 + (RuneBytes(b)[1] as int - 0x80) == b
  {
  }

  /** `prefix[:n-1] + string(prefix[n-1]+1)`, the addition wrapping at 256; an empty prefix panics. */
  function PrefixEnd(prefix: string): Option<string>
    requires IsBytes(prefix)
  {
    if prefix == "" then None
    else
      var n := |prefix| - 1;
      Some(prefix[..n] + RuneBytes((prefix[n] as int + 1) % 256))
  }

  predicate InRange(k: string, prefix: string)
    requires IsBytes(prefix)
  {
    !Less(k, prefix) && PrefixEnd(prefix).Some? && Less(k, PrefixEnd(prefix).value)
  }

  method MongoScanPrefix<V>(bucket: map<string, V>, prefix: string) returns (hits: Option<seq<string>>)
    requires IsBytes(prefix)
    ensures hits == None <==> prefix == ""
    ensures hits.Some? ==> Ascending(hits.value)
    ensures hits.Some? ==> forall k :: k in hits.value <==> k in bucket && InRange(k, prefix)
  {
    var end := PrefixEnd(prefix);
    if end == None {
      return None;
    }
    var ks := Cursor(bucket.Keys);
    var found: seq<string> := [];
    for i := 0 to |ks|
      invariant Ascending(found) && forall j :: 0 <= j < |found| ==> found[j] in ks[..i]
      invariant forall k :: k in found <==> k in ks[..i] && InRange(k, prefix)
    {
      assert ks[..i + 1] == ks[..i] + [ks[i]];
      if !Less(ks[i], prefix) && Less(ks[i], end.value) {
        found := found + [ks[i]];
      }
    }
    assert ks[..|ks|] == ks;
    return Some(found);
  }

  lemma {:induction false} SharedFront(q: string, x: string, y: string)
    ensures Less(q + x, q + y) <==> Less(x, y)
  {
    if q == "" {
      assert q + x == x && q + y == y;
    } else {
      assert (q + x)[1..] == q[1..] + x && (q + y)[1..] == q[1..] + y;
      SharedFront(q[1..], x, y);
    }
  }

  /** Between `q` followed by `c` and `q` followed by the next byte lie exactly the extensions of the former. */
  lemma {:induction false} BetweenNeighbours(k: string, q: string, c: char)
    requires c as int < 255
    ensures !Less(k, q + [c]) && Less(k, q + [(c as int + 1) as char]) <==> q + [c] <= k
  {
    if q == "" {
      assert q + [c] == [c];
    } else if k != "" {
      assert (q + [c])[1..] == q[1..] + [c];
      assert (q + [(c as int + 1) as char])[1..] == q[1..] + [(c as int + 1) as char];
      BetweenNeighbours(k[1..], q[1..], c);
      assert k == [k[0]] + k[1..] && q + [c] == [q[0]] + (q[1..] + [c]);
    }
  }

  lemma HighLastByteDiffers(q: string, c: char) returns (k: string)
    requires IsBytes(q) && 0x7F <= c as int < 256
    ensures IsBytes(q + [c]) && IsBytes(k)
    ensures InRange(k, q + [c]) != (q + [c] <= k)
  {
    var prefix := q + [c];
    var next := (c as int + 1) % 256;
    assert prefix[..|q|] == q;
    var end := q + RuneBytes(next);
    var tail :=
      if c as int < 0xC2 || c as int == 0xC2 then [(c as int + 1) as char]
      else if c as int == 0xC3 then [c, 0xFF as char]
      else [c];
    k := q + tail;
    SharedFront(q, tail, [c]);
    SharedFront(q, tail, RuneBytes(next));
    assert k[|q|] == tail[0] && prefix[|q|] == c;
  }

  /** The range visits exactly the keys with the prefix, and so agrees with bbolt, if and only if the last
      byte of the prefix is below 0x7F; every prefix the code builds ends in ':'. */
  lemma RangeIsPrefixIff(prefix: string)
    requires IsBytes(prefix) && prefix != ""
    ensures (forall k :: IsBytes(k) ==> (InRange(k, prefix) <==> prefix <= k))
            <==> prefix[|prefix| - 1] as int < 0x7F
  {
    var q, c := prefix[..|prefix| - 1], prefix[|prefix| - 1];
    assert prefix == q + [c];
    if c as int < 0x7F {
      forall k ensures InRange(k, prefix) <==> prefix <= k { BetweenNeighbours(k, q, c); }
    } else {
      var k := HighLastByteDiffers(q, c);
    }
  }
}
