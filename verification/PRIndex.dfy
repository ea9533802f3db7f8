/** The pull-request table of the bbolt store with its two indexes, fallback scan and self-heal, and the
    scan-free Mongo lookup beside it. */
module PRIndex {
  import opened Options
  import opened Keys

  datatype PRRecord = PRRecord(id: string, group: string, number: int)

  /** The three buckets: records, key by id, key by number. */
  datatype Tables = Tables(prs: map<string, string>, byId: map<string, string>, byNumber: map<string, string>)

  /** How the stored bytes decode; `None` is a JSON error. */
  type Decoder = string -> Option<PRRecord>

  function Digits(n: nat): string {
    if n < 10 then [('0' as int + n) as char] else Digits(n / 10) + [('0' as int + n % 10) as char]
  }

  function Decimal(n: int): string {
    if n < 0 then "-" + Digits(-n) else Digits(n)
  }

  /** The number a string of digits spells. */
  function Spelled(digits: string): int {
    if digits == "" then 0 else Spelled(digits[..|digits| - 1]) * 10 + (digits[|digits| - 1] as int - '0' as int)
  }

  /** `%d` spells the number in digits, with no zero in front unless it is the only one. */
  lemma {:induction false} DigitsSpell(n: nat)
    ensures Spelled(Digits(n)) == n && Digits(n) != ""
    ensures forall i :: 0 <= i < |Digits(n)| ==> '0' <= Digits(n)[i] <= '9'
    ensures Digits(n)[0] == '0' ==> Digits(n) == "0"
  {
    if n >= 10 {
      DigitsSpell(n / 10);
      assert Digits(n)[..|Digits(n)| - 1] == Digits(n / 10);
      assert "0"[..0] == "" && Spelled("0") == 0;
    } else {
      assert Digits(n)[..0] == "";
    }
  }

  /** A negative number has a minus sign in front. */
  lemma DecimalSpells(n: int)
    ensures n >= 0 ==> Spelled(Decimal(n)) == n && Decimal(n)[0] != '-'
    ensures n < 0 ==> Decimal(n) == "-" + Decimal(-n) && Spelled(Decimal(n)[1..]) == -n
    ensures Decimal(n) != "" && ':' !in Decimal(n)
  {
    DigitsSpell(if n < 0 then -n else n);
    if n < 0 { assert Decimal(n)[1..] == Digits(-n); }
  }

  /** Different numbers are spelled differently. */
  lemma DecimalInjective(m: int, n: int)
    ensures Decimal(m) == Decimal(n) <==> m == n
  {
    DecimalSpells(m);
    DecimalSpells(n);
    assert m < 0 ==> Decimal(m)[0] == '-';
    assert n < 0 ==> Decimal(n)[0] == '-';
  }

  function IdKey(group: string, id: string): string {
    if group == "" then id else group + ":" + id
  }

  function NumberKey(group: string, number: int): string {
    group + ":" + Decimal(number)
  }

  function PutIndexed(t: Tables, key: string, value: string, id: string, group: string, number: int): Tables {
    Tables(t.prs[key := value],
           if id != "" then t.byId[IdKey(group, id) := key] else t.byId,
           if group != "" then t.byNumber[NumberKey(group, number) := key] else t.byNumber)
  }

  function Follow(t: Tables, index: map<string, string>, key: string): Option<string> {
    if key in index && index[key] in t.prs then Some(t.prs[index[key]]) else None
  }

  /** What the two index lookups find: by id, then by number. */
  function Indexed(t: Tables, id: string, group: string, number: int): Option<string> {
    var byId := if id != "" then Follow(t, t.byId, IdKey(group, id)) else None;
    if byId.Some? then byId
    else if group != "" && number > 0 then Follow(t, t.byNumber, NumberKey(group, number))
    else None
  }

  predicate Matches(decode: Decoder, value: string, id: string, group: string) {
    decode(value).Some? && decode(value).value.id == id && (group == "" || decode(value).value.group == group)
  }

  /** The first record, in key order, that a full scan for (id, group) stops at. */
  ghost predicate FirstMatch(t: Tables, decode: Decoder, id: string, group: string, key: string) {
    && key in t.prs && Matches(decode, t.prs[key], id, group)
    && forall k :: k in t.prs && Matches(decode, t.prs[k], id, group) ==> k == key || Less(key, k)
  }

  ghost predicate NoMatch(t: Tables, decode: Decoder, id: string, group: string) {
    forall k :: k in t.prs ==> !Matches(decode, t.prs[k], id, group)
  }

  function Healed(t: Tables, key: string, id: string, r: PRRecord): Tables {
    Tables(t.prs, t.byId[IdKey(r.group, id) := key],
           if r.group != "" && r.number > 0 then t.byNumber[NumberKey(r.group, r.number) := key] else t.byNumber)
  }

  /** One lookup: the answer and the tables it leaves behind. */
  ghost predicate Lookup(t: Tables, decode: Decoder, id: string, group: string, number: int,
                         result: Option<string>, t': Tables) {
    if Indexed(t, id, group, number).Some? then result == Indexed(t, id, group, number) && t' == t
    else if id == "" || NoMatch(t, decode, id, group) then result == None && t' == t
    else exists key :: FirstMatch(t, decode, id, group, key) && result == Some(t.prs[key]) &&
           t' == Healed(t, key, id, decode(t.prs[key]).value)
  }

  class PRStorage {
    const decode: Decoder
    var prs: map<string, string>
    var byId: map<string, string>
    var byNumber: map<string, string>

    constructor (decode: Decoder)
      ensures this.decode == decode && Now() == Tables(map[], map[], map[])
    {
      this.decode := decode;
      prs, byId, byNumber := map[], map[], map[];
    }

    function Now(): Tables
      reads this
    {
      Tables(prs, byId, byNumber)
    }

    method PutPRWithIndex(key: string, value: string, id: string, group: string, number: int)
      modifies this
      ensures Now() == PutIndexed(old(Now()), key, value, id, group, number)
      ensures prs == old(prs)[key := value]
      ensures byId == if id == "" then old(byId)
                      else old(byId)[(if group == "" then id else group + ":" + id) := key]
      ensures byNumber == if group == "" then old(byNumber) else old(byNumber)[group + ":" + Decimal(number) := key]
    {
      prs := prs[key := value];
      if id != "" {
        var idxKey := id;
        if group != "" {
          idxKey := group + ":" + id;
        }
        byId := byId[idxKey := key];
      }
      if group != "" {
        byNumber := byNumber[NumberKey(group, number) := key];
      }
    }

    /** The first transaction of a lookup. */
    method ReadIndexes(id: string, group: string, number: int) returns (result: Option<string>)
      ensures result == Indexed(Now(), id, group, number)
      ensures var k, l := if group == "" then id else group + ":" + id, group + ":" + Decimal(number);
              result == if id != "" && k in byId && byId[k] in prs then Some(prs[byId[k]])
                        else if group != "" && number > 0 && l in byNumber && byNumber[l] in prs
                        then Some(prs[byNumber[l]]) else None
    {
      if id != "" {
        var idxKey := id;
        if group != "" {
          idxKey := group + ":" + id;
        }
        if idxKey in byId && byId[idxKey] in prs {
          return Some(prs[byId[idxKey]]);
        }
      }
      if group != "" && number > 0 {
        var rgKey := NumberKey(group, number);
        if rgKey in byNumber && byNumber[rgKey] in prs {
          return Some(prs[byNumber[rgKey]]);
        }
      }
      return None;
    }

    /** The second transaction: the first record in key order that decodes to the identity. */
    method ScanFor(id: string, group: string) returns (hit: Option<(string, string)>)
      ensures hit == None <==> NoMatch(Now(), decode, id, group)
      ensures hit.Some? ==> FirstMatch(Now(), decode, id, group, hit.value.0) && prs[hit.value.0] == hit.value.1
      ensures forall k :: k in prs && decode(prs[k]).Some? && decode(prs[k]).value.id == id
                          && (group == "" || decode(prs[k]).value.group == group) ==>
                hit.Some? && (k == hit.value.0 || Less(hit.value.0, k))
      ensures hit.Some? ==>
                && hit.value.0 in prs && decode(hit.value.1).Some? && decode(hit.value.1).value.id == id
                && (group == "" || decode(hit.value.1).value.group == group)
    {
      var ks := Cursor(prs.Keys);
      for i := 0 to |ks|
        invariant forall j :: 0 <= j < i ==> !Matches(decode, prs[ks[j]], id, group)
      {
        var value := prs[ks[i]];
        var pr := decode(value);
        if pr.Some? && pr.value.id == id && (group == "" || pr.value.group == group) {
          forall k | k in prs && Matches(decode, prs[k], id, group) ensures k == ks[i] || Less(ks[i], k) {
            var j :| 0 <= j < |ks| && ks[j] == k;
          }
          return Some((ks[i], value));
        }
      }
      forall k | k in prs ensures !Matches(decode, prs[k], id, group) {
        assert k in ks;
      }
      return None;
    }

    /** The third transaction decodes the record found once more and files it in both indexes. */
    method Heal(key: string, id: string, value: string)
      modifies this
      ensures Now() == if decode(value).Some? then Healed(old(Now()), key, id, decode(value).value) else old(Now())
      ensures prs == old(prs)
      ensures decode(value).Some? ==>
                var PRRecord(_, group, number) := decode(value).value;
                && byId == old(byId)[(if group == "" then id else group + ":" + id) := key]
                && byNumber == if group == "" || number <= 0 then old(byNumber)
                               else old(byNumber)[group + ":" + Decimal(number) := key]
    {
      var pr := decode(value);
      if pr == None {
        return;
      }
      var idxKey := id;
      if pr.value.group != "" {
        idxKey := pr.value.group + ":" + id;
      }
      byId := byId[idxKey := key];
      if pr.value.group != "" && pr.value.number > 0 {
        byNumber := byNumber[NumberKey(pr.value.group, pr.value.number) := key];
      }
    }

    /** The record under `key` decodes to the id, and to the group if one is asked for. */
    ghost predicate Names(key: string, id: string, group: string)
      reads this
    {
      && key in prs && decode(prs[key]).Some? && decode(prs[key]).value.id == id
      && (group == "" || decode(prs[key]).value.group == group)
    }

    /** The indexes are what they were, but lead from the id in the record's own group, and from the record's number
        if it has both, to `key`. */
    ghost predicate Files(key: string, id: string, byId0: map<string, string>, byNumber0: map<string, string>)
      reads this
      requires key in prs && decode(prs[key]).Some?
    {
      var PRRecord(_, group, number) := decode(prs[key]).value;
      && byId == byId0[(if group == "" then id else group + ":" + id) := key]
      && byNumber == if group == "" || number <= 0 then byNumber0 else byNumber0[group + ":" + Decimal(number) := key]
    }

    /** A lookup with nobody else at work between its transactions. */
    method GetPRByIndex(id: string, group: string, number: int) returns (result: Option<string>)
      modifies this
      ensures prs == old(prs)
      ensures var k, l := if group == "" then id else group + ":" + id, group + ":" + Decimal(number);
              if id != "" && k in old(byId) && old(byId)[k] in prs then
                result == Some(prs[old(byId)[k]]) && byId == old(byId) && byNumber == old(byNumber)
              else if group != "" && number > 0 && l in old(byNumber) && old(byNumber)[l] in prs then
                result == Some(prs[old(byNumber)[l]]) && byId == old(byId) && byNumber == old(byNumber)
              else if id != "" && exists key :: Names(key, id, group) then
                exists key :: Names(key, id, group) && (forall m :: Names(m, id, group) ==> m == key || Less(key, m))
                  && result == Some(prs[key]) && Files(key, id, old(byId), old(byNumber))
              else result == None && byId == old(byId) && byNumber == old(byNumber)
      ensures Lookup(old(Now()), decode, id, group, number, result, Now())
    {
      result := ReadIndexes(id, group, number);
      if result.Some? || id == "" {
        return;
      }
      var hit := ScanFor(id, group);
      if hit == None {
        return None;
      }
      Heal(hit.value.0, id, hit.value.1);
      assert Names(hit.value.0, id, group);
      return Some(hit.value.1);
    }
  }

  // ----- the index agrees with the scan

  datatype Identity = Identity(id: string, group: string)

  /** Which identity each key is written with, over the whole life of the store. */
  ghost predicate PlainOwners(owner: string -> Identity) {
    forall k :: owner(k).id != "" && Plain(owner(k).id) && Plain(owner(k).group)
  }

  /** Records decode to their key's identity, and id-index entries lead to the identity they are filed under. */
  ghost predicate Sound(t: Tables, decode: Decoder, owner: string -> Identity) {
    && (forall k :: k in t.prs ==> OwnValue(decode, owner, k, t.prs[k]))
    && (forall i :: i in t.byId ==> i == IdKey(owner(t.byId[i]).group, owner(t.byId[i]).id))
  }

  ghost predicate AtMostOne(t: Tables, decode: Decoder, id: string, group: string) {
    forall k, l ::
      (k in t.prs && l in t.prs && Matches(decode, t.prs[k], id, group) && Matches(decode, t.prs[l], id, group))
      ==> k == l
  }

  lemma IdKeyInjective(group: string, id: string, group': string, id': string)
    requires Plain(group) && Plain(id) && Plain(group') && Plain(id')
    requires IdKey(group, id) == IdKey(group', id')
    ensures group == group' && id == id'
  {
    if group != "" { FirstColon(group, id); }
    if group' != "" { FirstColon(group', id'); }
    if group != "" && group' != "" { CompositeInjective(group, id, group', id'); }
  }

  /** The part of the key after `group` is spelled out in the group on one side and in the id on the other. */
  ghost predicate Absorbs(group: string, id: string, group': string, id': string) {
    if group == "" then group' != "" && id == group' + ":" + id'
    else exists front: string :: group' == group + ":" + front && id == front + ":" + id'
  }

  lemma LongerGroup(group: string, id: string, group': string, id': string)
    requires group != "" && group' != "" && |group| < |group'| && IdKey(group, id) == IdKey(group', id')
    ensures Absorbs(group, id, group', id')
  {
    var key, n := IdKey(group, id), |group|;
    assert key == group + ":" + id && key == group' + ":" + id';
    assert group' == key[..|group'|] && group == key[..n] && key[n] == ':';
    var front := group'[n + 1..];
    assert group' == group + ":" + front;
    assert id == key[n + 1..] == front + ":" + id';
  }

  lemma AbsorbedKey(group: string, id: string, group': string, id': string)
    requires Absorbs(group, id, group', id')
    ensures IdKey(group, id) == IdKey(group', id')
  {
    if group != "" {
      var front: string :| group' == group + ":" + front && id == front + ":" + id';
      assert group + ":" + (front + ":" + id') == (group + ":" + front) + ":" + id';
    }
  }

  lemma SameGroupKey(group: string, id: string, id': string)
    requires IdKey(group, id) == IdKey(group, id')
    ensures id == id'
  {
    if group != "" { assert id == IdKey(group, id)[|group| + 1..] == id'; }
  }

  /** Whatever the names: two identities share an index key exactly when they are the same, or the one's group
      goes on with a colon and a piece of the other's id (an id without a group holding all of the key). */
  lemma IdKeySharedIff(group: string, id: string, group': string, id': string)
    ensures IdKey(group, id) == IdKey(group', id') <==>
              (group == group' && id == id') || Absorbs(group, id, group', id') || Absorbs(group', id', group, id)
  {
    if Absorbs(group, id, group', id') { AbsorbedKey(group, id, group', id'); }
    if Absorbs(group', id', group, id) { AbsorbedKey(group', id', group, id); }
    if IdKey(group, id) == IdKey(group', id') {
      if group == group' {
        SameGroupKey(group, id, id');
      } else if group != "" && group' != "" {
        var key := IdKey(group, id);
        assert key[..|group|] == group && key[..|group'|] == group';
        if |group| < |group'| {
          LongerGroup(group, id, group', id');
        } else if |group'| < |group| {
          LongerGroup(group', id', group, id);
        }
      }
    }
  }

  /** Colons in names make two identities share an index key. */
  lemma IdKeyCollides()
    ensures IdKey("a", "b:c") == IdKey("a:b", "c")
  {
    assert IdKey("a", "b:c") == "a:b:c" == IdKey("a:b", "c");
  }

  /** Ids unique within a group: at most one record answers a query that names its group. */
  lemma UniqueInGroup(t: Tables, decode: Decoder, owner: string -> Identity, id: string, group: string)
    requires Sound(t, decode, owner) && group != ""
    requires forall k, l :: owner(k) == owner(l) ==> k == l
    ensures AtMostOne(t, decode, id, group)
  {
    forall k, l | k in t.prs && l in t.prs &&
                  Matches(decode, t.prs[k], id, group) && Matches(decode, t.prs[l], id, group)
      ensures k == l
    {
      assert owner(k) == Identity(id, group) == owner(l);
    }
  }

  lemma IndexHitMatches(t: Tables, decode: Decoder, owner: string -> Identity, id: string, group: string)
    requires PlainOwners(owner) && Sound(t, decode, owner) && id != "" && Plain(id) && Plain(group)
    requires IdKey(group, id) in t.byId && t.byId[IdKey(group, id)] in t.prs
    ensures Matches(decode, t.prs[t.byId[IdKey(group, id)]], id, group)
  {
    var key := t.byId[IdKey(group, id)];
    IdKeyInjective(group, id, owner(key).group, owner(key).id);
  }

  /** `result` is what a full scan of the records finds for the identity. */
  ghost predicate IsScanAnswer(t: Tables, decode: Decoder, id: string, group: string, result: Option<string>) {
    && (result == None <==> NoMatch(t, decode, id, group))
    && forall k :: k in t.prs && Matches(decode, t.prs[k], id, group) ==> result == Some(t.prs[k])
  }

  /** Looking up by id returns exactly what a full scan finds, whichever records were indexed, and keeps
      the index sound. */
  lemma LookupIsScan(t: Tables, decode: Decoder, owner: string -> Identity, id: string, group: string,
                     result: Option<string>, t': Tables)
    requires PlainOwners(owner) && Sound(t, decode, owner) && AtMostOne(t, decode, id, group)
    requires id != "" && Plain(id) && Plain(group)
    requires Lookup(t, decode, id, group, 0, result, t')
    ensures IsScanAnswer(t, decode, id, group, result)
    ensures Sound(t', decode, owner) && t'.prs == t.prs
  {
    if Indexed(t, id, group, 0).Some? {
      IndexHitMatches(t, decode, owner, id, group);
    }
  }

  /** The id entry of the query leads to a live record of another identity. */
  ghost predicate Misled(t: Tables, owner: string -> Identity, id: string, group: string) {
    var k := IdKey(group, id);
    k in t.byId && t.byId[k] in t.prs && owner(t.byId[k]) != Identity(id, group)
  }

  /** Whatever the names: looking up by id within a group returns what a full scan finds exactly when the id entry
      does not lead to a live record of another identity, and it can only do so if the two share an index key. */
  lemma LookupIsScanIff(t: Tables, decode: Decoder, owner: string -> Identity, id: string, group: string,
                        result: Option<string>, t': Tables)
    requires Sound(t, decode, owner) && AtMostOne(t, decode, id, group) && id != "" && group != ""
    requires Lookup(t, decode, id, group, 0, result, t')
    ensures IsScanAnswer(t, decode, id, group, result) <==> !Misled(t, owner, id, group)
    ensures Misled(t, owner, id, group) ==>
              var other := owner(t.byId[IdKey(group, id)]);
              Absorbs(group, id, other.group, other.id) || Absorbs(other.group, other.id, group, id)
  {
    var k := IdKey(group, id);
    if k in t.byId && t.byId[k] in t.prs {
      assert Matches(decode, t.prs[t.byId[k]], id, group) <==> owner(t.byId[k]) == Identity(id, group);
      IdKeySharedIff(group, id, owner(t.byId[k]).group, owner(t.byId[k]).id);
    }
  }

  /** Any two identities that share an index key are mixed up: after both are stored, the lookup of the first
      returns the second's record. */
  lemma SharedKeyMixesUp(decode: Decoder, owner: string -> Identity, key: string, value: string,
                         key': string, value': string)
    requires key != key' && owner(key) != owner(key') && owner(key).id != "" && owner(key').id != ""
    requires IdKey(owner(key).group, owner(key).id) == IdKey(owner(key').group, owner(key').id)
    requires OwnValue(decode, owner, key, value) && OwnValue(decode, owner, key', value')
    ensures var a, b, none := owner(key), owner(key'), Tables(map[], map[], map[]);
            var t := PutIndexed(PutIndexed(none, key, value, a.id, a.group, 1), key', value', b.id, b.group, 2);
            && Sound(t, decode, owner) && Lookup(t, decode, a.id, a.group, 0, Some(value'), t)
            && Matches(decode, t.prs[key], a.id, a.group) && !IsScanAnswer(t, decode, a.id, a.group, Some(value'))
  {
    var a, b, none := owner(key), owner(key'), Tables(map[], map[], map[]);
    var t := PutIndexed(PutIndexed(none, key, value, a.id, a.group, 1), key', value', b.id, b.group, 2);
    assert t.prs[key] == value && t.prs[key'] == value' && t.byId[IdKey(a.group, a.id)] == key';
    assert Indexed(t, a.id, a.group, 0) == Some(value');
    IdKeySharedIff(a.group, a.id, b.group, b.id);
  }

  lemma LastColon(group: string, tail: string)
    requires ':' !in tail
    ensures var key := group + ":" + tail;
            key[|group|] == ':' && forall i :: |group| < i < |key| ==> key[i] != ':'
  {
    var key := group + ":" + tail;
    forall i | |group| < i < |key| ensures key[i] != ':' { assert key[i] == tail[i - |group| - 1]; }
  }

  /** Number keys belong to one group and one number, whatever the names. */
  lemma NumberKeyInjective(group: string, m: int, group': string, n: int)
    ensures NumberKey(group, m) == NumberKey(group', n) <==> group == group' && m == n
  {
    DecimalSpells(m);
    DecimalSpells(n);
    DecimalInjective(m, n);
    LastColon(group, Decimal(m));
    LastColon(group', Decimal(n));
    var key := NumberKey(group, m);
    if key == NumberKey(group', n) {
      assert |group| == |group'|;
      assert group == key[..|group|] == group' && Decimal(m) == key[|group| + 1..] == Decimal(n);
    }
  }

  /** What the number index leads to. */
  function ByNumber(t: Tables, group: string, number: int): Option<string> {
    if group != "" && number > 0 then Follow(t, t.byNumber, NumberKey(group, number)) else None
  }

  /** With a number given as well, a lookup differs from the scan exactly when the id entry is not live while the
      number entry is, and leads to a record of another identity. */
  lemma NumberLookupIsScanIff(t: Tables, decode: Decoder, owner: string -> Identity, id: string, group: string,
                              number: int, result: Option<string>, t': Tables)
    requires PlainOwners(owner) && Sound(t, decode, owner) && AtMostOne(t, decode, id, group)
    requires id != "" && Plain(id) && Plain(group)
    requires Lookup(t, decode, id, group, number, result, t')
    ensures IsScanAnswer(t, decode, id, group, result) <==>
              || Follow(t, t.byId, IdKey(group, id)).Some?
              || ByNumber(t, group, number).None?
              || Matches(decode, ByNumber(t, group, number).value, id, group)
  {
    if Follow(t, t.byId, IdKey(group, id)).Some? {
      IndexHitMatches(t, decode, owner, id, group);
    }
  }

  /** A record written with its indexes is found again under its id, and under its number alone. */
  lemma PutIsFound(t: Tables, key: string, value: string, id: string, group: string, number: int)
    ensures var t' := PutIndexed(t, key, value, id, group, number);
            && (id != "" ==> forall n :: Indexed(t', id, group, n) == Some(value))
            && (group != "" && number > 0 ==> Indexed(t', "", group, number) == Some(value))
            && (forall k :: k != key && k in t.prs ==> k in t'.prs && t'.prs[k] == t.prs[k])
  {
  }

  /** A scan hit heals the index: the next lookup in the record's own group is answered by the index, with
      the same bytes, and writes nothing. */
  lemma HealMakesIndexHit(t: Tables, decode: Decoder, id: string, group: string, number: int,
                          result: Option<string>, t': Tables)
    requires Lookup(t, decode, id, group, number, result, t')
    requires Indexed(t, id, group, number) == None && result.Some?
    ensures decode(result.value).Some? && decode(result.value).value.id == id
    ensures var own := decode(result.value).value.group;
            && Indexed(t', id, own, 0) == result
            && forall n, r, t'' :: Lookup(t', decode, id, own, n, r, t'') ==> r == result && t'' == t'
  {
    var key :| FirstMatch(t, decode, id, group, key) && result == Some(t.prs[key]) &&
               t' == Healed(t, key, id, decode(t.prs[key]).value);
    var own := decode(result.value).value.group;
    assert Follow(t', t'.byId, IdKey(own, id)) == result;
  }

  // ----- runs, with lookups interleaved

  datatype Op =
    | WriteIndexed(key: string, value: string, number: int)
    | Write(key: string, value: string)
    | Remove(key: string)
    | Query(id: string, group: string, number: int)
    | LateHeal(key: string, value: string, id: string)   // for a scan that others have worked after

  ghost predicate OwnValue(decode: Decoder, owner: string -> Identity, key: string, value: string) {
    decode(value).Some? && decode(value).value.id == owner(key).id && decode(value).value.group == owner(key).group
  }

  /** One operation by callers that always write a key with its own identity. */
  ghost predicate Step(t: Tables, decode: Decoder, owner: string -> Identity, op: Op, t': Tables) {
    match op
    case WriteIndexed(key, value, number) =>
      && OwnValue(decode, owner, key, value)
      && t' == PutIndexed(t, key, value, owner(key).id, owner(key).group, number)
    case Write(key, value) => OwnValue(decode, owner, key, value) && t' == t.(prs := t.prs[key := value])
    case Remove(key) => t' == t.(prs := t.prs - {key})
    case Query(id, group, number) => exists result :: Lookup(t, decode, id, group, number, result, t')
    case LateHeal(key, value, id) => decode(value).Some? && t' == Healed(t, key, id, decode(value).value)
  }

  /** Some earlier scan found what step `n` heals, however long ago. */
  ghost predicate Scanned(ts: seq<Tables>, decode: Decoder, op: Op, n: nat)
    requires n < |ts| && op.LateHeal?
  {
    exists i, group :: 0 <= i <= n && FirstMatch(ts[i], decode, op.id, group, op.key) && ts[i].prs[op.key] == op.value
  }

  /** Transactions of any number of callers: indexed and unindexed writes, removals, lookups that run undisturbed,
      and heals that come at any time after their scan. */
  ghost predicate Run(ts: seq<Tables>, decode: Decoder, owner: string -> Identity, ops: seq<Op>) {
    && |ts| == |ops| + 1 && ts[0] == Tables(map[], map[], map[])
    && (forall i :: 0 <= i < |ops| ==> Step(ts[i], decode, owner, ops[i], ts[i + 1]))
    && (forall i :: 0 <= i < |ops| && ops[i].LateHeal? ==> Scanned(ts, decode, ops[i], i))
  }

  lemma HealKeepsSound(t: Tables, decode: Decoder, owner: string -> Identity, key: string, value: string, id: string)
    requires Sound(t, decode, owner) && OwnValue(decode, owner, key, value) && decode(value).value.id == id
    ensures Sound(Healed(t, key, id, decode(value).value), decode, owner)
  {
  }

  lemma StepKeepsSound(t: Tables, decode: Decoder, owner: string -> Identity, op: Op, t': Tables)
    requires Sound(t, decode, owner) && Step(t, decode, owner, op, t') && !op.LateHeal?
    ensures Sound(t', decode, owner)
  {
    match op
    case WriteIndexed(key, value, number) =>
    case Write(key, value) =>
    case Remove(key) =>
    case Query(id, group, number) =>
      var result :| Lookup(t, decode, id, group, number, result, t');
  }

  /** Any mix of such transactions keeps the index sound, at every moment and whatever the names. */
  lemma {:induction false} RunKeepsSound(ts: seq<Tables>, decode: Decoder, owner: string -> Identity, ops: seq<Op>)
    requires Run(ts, decode, owner, ops)
    ensures forall k :: 0 <= k <= |ops| ==> Sound(ts[k], decode, owner)
  {
    if ops != [] {
      var n := |ops| - 1;
      RunFront(ts, decode, owner, ops);
      RunKeepsSound(ts[..n + 1], decode, owner, ops[..n]);
      assert forall k :: 0 <= k <= n ==> ts[..n + 1][k] == ts[k];
      if ops[n].LateHeal? {
        var op := ops[n];
        var i, group :| 0 <= i <= n && FirstMatch(ts[i], decode, op.id, group, op.key)
                        && ts[i].prs[op.key] == op.value;
        assert Sound(ts[i], decode, owner);
        HealKeepsSound(ts[n], decode, owner, op.key, op.value, op.id);
      } else {
        StepKeepsSound(ts[n], decode, owner, ops[n], ts[n + 1]);
      }
    }
  }

  lemma RunFront(ts: seq<Tables>, decode: Decoder, owner: string -> Identity, ops: seq<Op>)
    requires Run(ts, decode, owner, ops) && ops != []
    ensures Run(ts[..|ops|], decode, owner, ops[..|ops| - 1])
  {
    var n := |ops| - 1;
    forall i | 0 <= i < n && ops[..n][i].LateHeal? ensures Scanned(ts[..n + 1], decode, ops[..n][i], i) {
      var op := ops[i];
      assert Scanned(ts, decode, op, i);
      var j, group :| 0 <= j <= i && FirstMatch(ts[j], decode, op.id, group, op.key) && ts[j].prs[op.key] == op.value;
      assert ts[..n + 1][j] == ts[j];
    }
  }

  /** After any such run, in a store whose identities are unique, a lookup by id within a group answers
      exactly as a full scan would, indexed or not. */
  lemma RunLookupIsScan(ts: seq<Tables>, decode: Decoder, owner: string -> Identity, ops: seq<Op>,
                        id: string, group: string, result: Option<string>, t': Tables)
    requires PlainOwners(owner) && Run(ts, decode, owner, ops)
    requires forall k, l :: owner(k) == owner(l) ==> k == l
    requires id != "" && Plain(id) && group != "" && Plain(group)
    requires Lookup(ts[|ops|], decode, id, group, 0, result, t')
    ensures IsScanAnswer(ts[|ops|], decode, id, group, result)
  {
    RunKeepsSound(ts, decode, owner, ops);
    UniqueInGroup(ts[|ops|], decode, owner, id, group);
    LookupIsScan(ts[|ops|], decode, owner, id, group, result, t');
  }

  /** The same without a condition on names: exactly when the id entry does not lead to a live record of another
      identity, which shares the index key. */
  lemma RunLookupIsScanIff(ts: seq<Tables>, decode: Decoder, owner: string -> Identity, ops: seq<Op>,
                           id: string, group: string, result: Option<string>, t': Tables)
    requires Run(ts, decode, owner, ops)
    requires forall k, l :: owner(k) == owner(l) ==> k == l
    requires id != "" && group != "" && Lookup(ts[|ops|], decode, id, group, 0, result, t')
    ensures IsScanAnswer(ts[|ops|], decode, id, group, result) <==> !Misled(ts[|ops|], owner, id, group)
  {
    RunKeepsSound(ts, decode, owner, ops);
    UniqueInGroup(ts[|ops|], decode, owner, id, group);
    LookupIsScanIff(ts[|ops|], decode, owner, id, group, result, t');
  }

  /** A lookup that read the indexes at moment `i` and scanned at moment `j`. */
  ghost predicate SplitLookup(ts: seq<Tables>, decode: Decoder, i: nat, j: nat, id: string, group: string,
                              result: Option<string>)
    requires i <= j < |ts|
  {
    var hit := Indexed(ts[i], id, group, 0);
    if hit.Some? then result == hit
    else if NoMatch(ts[j], decode, id, group) then result == None
    else exists key :: FirstMatch(ts[j], decode, id, group, key) && result == Some(ts[j].prs[key])
  }

  /** With others at work between its transactions a lookup still answers as a full scan would have at one of
      them: at the index transaction if that hit, at the scan otherwise. */
  lemma SplitLookupIsScan(ts: seq<Tables>, decode: Decoder, owner: string -> Identity, ops: seq<Op>,
                          i: nat, j: nat, id: string, group: string, result: Option<string>)
    requires PlainOwners(owner) && Run(ts, decode, owner, ops)
    requires forall k, l :: owner(k) == owner(l) ==> k == l
    requires id != "" && Plain(id) && group != "" && Plain(group)
    requires i <= j <= |ops| && SplitLookup(ts, decode, i, j, id, group, result)
    ensures IsScanAnswer(ts[if Indexed(ts[i], id, group, 0).Some? then i else j], decode, id, group, result)
  {
    RunKeepsSound(ts, decode, owner, ops);
    if Indexed(ts[i], id, group, 0).Some? {
      IndexHitMatches(ts[i], decode, owner, id, group);
      UniqueInGroup(ts[i], decode, owner, id, group);
    } else {
      UniqueInGroup(ts[j], decode, owner, id, group);
    }
  }

  // ----- Mongo, and the number index

  /** Mongo picks one index entry and never scans; a dangling id entry hides the number index. */
  function MongoLookup(t: Tables, id: string, group: string, number: int): Option<string> {
    var byId := if id != "" && IdKey(group, id) in t.byId then t.byId[IdKey(group, id)] else "";
    var target :=
      if byId == "" && group != "" && number > 0 && NumberKey(group, number) in t.byNumber
      then t.byNumber[NumberKey(group, number)] else byId;
    if target != "" && target in t.prs then Some(t.prs[target]) else None
  }

  /** Whatever Mongo answers, bbolt answers too. The two differ exactly when the id entry dangles while the
      number entry is live, or no index entry is live and a scan finds the record. */
  lemma MongoAgreesWhenIndexed(t: Tables, decode: Decoder, id: string, group: string, number: int,
                               result: Option<string>, t': Tables)
    requires "" !in t.prs && Lookup(t, decode, id, group, number, result, t')
    requires forall i :: i in t.byId ==> t.byId[i] != ""
    ensures MongoLookup(t, id, group, number).Some? ==> result == MongoLookup(t, id, group, number)
    ensures result == MongoLookup(t, id, group, number) <==>
              if Indexed(t, id, group, number).None? then id == "" || NoMatch(t, decode, id, group)
              else !(id != "" && IdKey(group, id) in t.byId && t.byId[IdKey(group, id)] !in t.prs)
  {
  }

  /** A number alone does not identify a record: after a miss by id the number index may answer with another one. */
  lemma NumberIndexMisdirects(decode: Decoder)
    requires decode("v") == Some(PRRecord("x", "g", 5))
    ensures var t := PutIndexed(Tables(map[], map[], map[]), "k", "v", "x", "g", 5);
            Lookup(t, decode, "y", "g", 5, Some("v"), t) && NoMatch(t, decode, "y", "g")
  {
    var t := PutIndexed(Tables(map[], map[], map[]), "k", "v", "x", "g", 5);
    assert IdKey("g", "x") == "g:x" && IdKey("g", "y") == "g:y";
    assert "g:x" != "g:y" by { assert "g:x"[2] != "g:y"[2]; }
    assert Indexed(t, "y", "g", 5) == Some("v");
  }
}
