/** What the ordered list of an index must be, and what seeking by prefix and by range
    over it means. */
module IndexSpec {
  import opened ByteCodec
  import opened Values
  import opened IndexKeys
  import opened IndexRows
  import opened KeyMaps
  import opened OrdList
  import opened Csr

  function First(row: Row): KeyVal { if row == [] then Missing else row[0] }

  ghost predicate EntryOf(tx: Texts, n: nat, e: OrdEntry, row: Row)
  {
    |row| == n && RowOk(row) && e == OrdEntry(First(row), EncodeKey(tx.num, row))
  }

  /** The entry is the key and first value of a row of n components. */
  ghost predicate EntryOk(tx: Texts, n: nat, e: OrdEntry)
  {
    exists row :: EntryOf(tx, n, e, row)
  }

  ghost predicate AllOk(tx: Texts, n: nat, ord: seq<OrdEntry>)
  {
    forall i | 0 <= i < |ord| :: EntryOk(tx, n, ord[i])
  }

  /** The list holds each live key once, with the first value of its row. */
  ghost predicate OrdOk(tx: Texts, n: nat, ord: seq<OrdEntry>, keys: set<Bytes>)
  {
    DistinctKeys(ord) && KeysOf(ord) == keys && AllOk(tx, n, ord)
  }

  lemma SameKeySameEntry(tx: Texts, n: nat, e: OrdEntry, f: OrdEntry)
    requires TextsOk(tx) && EntryOk(tx, n, e) && EntryOk(tx, n, f) && e.key == f.key
    ensures e == f
  {
    var row :| EntryOf(tx, n, e, row);
    var other :| EntryOf(tx, n, f, other);
    KeyInjective(tx.num, row, other);
  }

  lemma OrdGrows(tx: Texts, n: nat, ord: seq<OrdEntry>, keys: set<Bytes>, e: OrdEntry, r: seq<OrdEntry>)
    requires OrdOk(tx, n, ord, keys) && EntryOk(tx, n, e) && e.key !in keys && Inserted(ord, e, r)
    ensures OrdOk(tx, n, r, keys + {e.key})
  {
    hide EntryOk, Inserted, KeysOf;
    InsertedFacts(ord, e, r);
    forall i | 0 <= i < |r|
      ensures EntryOk(tx, n, r[i])
    {
      assert r[i] in r;
    }
  }

  lemma OrdShrinks(tx: Texts, n: nat, ord: seq<OrdEntry>, keys: set<Bytes>, key: Bytes, r: seq<OrdEntry>)
    requires OrdOk(tx, n, ord, keys) && Removed(ord, key, r)
    ensures OrdOk(tx, n, r, keys - {key})
  {
    hide EntryOk, Removed, KeysOf;
    RemovedFacts(ord, key, r);
    forall i | 0 <= i < |r|
      ensures EntryOk(tx, n, r[i])
    {
      assert r[i] in r;
    }
  }

  lemma OrdSorts(tx: Texts, n: nat, ord: seq<OrdEntry>, keys: set<Bytes>, r: seq<OrdEntry>)
    requires OrdOk(tx, n, ord, keys) && DistinctKeys(r) && KeysOf(r) == KeysOf(ord)
    requires forall x: OrdEntry :: x in r <==> x in ord
    ensures OrdOk(tx, n, r, keys)
  {
    hide EntryOk, KeysOf;
    forall i | 0 <= i < |r|
      ensures EntryOk(tx, n, r[i])
    {
      assert r[i] in r;
    }
  }

  /** The same keys give the same sorted list: nothing about it depends on the order
      in which the documents came. */
  lemma OrdIsDetermined(tx: Texts, n: nat, a: seq<OrdEntry>, b: seq<OrdEntry>, keys: set<Bytes>)
    requires TextsOk(tx) && OrdOk(tx, n, a, keys) && OrdOk(tx, n, b, keys) && Sorted(a) && Sorted(b)
    ensures a == b
  {
    hide EntryOk, OrdLess;
    forall x: OrdEntry
      ensures x in a <==> x in b
    {
      if x in a { Shared(tx, n, a, b, keys, x); }
      if x in b { Shared(tx, n, b, a, keys, x); }
    }
    SortedUnique(a, b);
  }

  lemma Shared(tx: Texts, n: nat, a: seq<OrdEntry>, b: seq<OrdEntry>, keys: set<Bytes>, x: OrdEntry)
    requires TextsOk(tx) && OrdOk(tx, n, a, keys) && OrdOk(tx, n, b, keys) && x in a
    ensures x in b
  {
    hide EntryOk;
    var i :| 0 <= i < |a| && a[i] == x;
    assert x.key in KeysOf(a);
    var j := AtKey(b, x.key);
    SameKeySameEntry(tx, n, x, b[j]);
  }

  // ---------------------------------------------------------------- prefixes

  /** The ids under the keys that start with a text. */
  function PrefixIds(km: KeyMap, prefix: Bytes): set<Bytes>
  {
    set k, id | k in km && prefix <= k && id in km[k] :: id
  }

  /** What seeking by leading values returns. */
  function SeekIds(tx: Texts, n: nat, km: KeyMap, values: Row): set<Bytes>
  {
    if values == [] then {}
    else if |values| == n then Owners(km, EncodeKey(tx.num, values))
    else PrefixIds(km, EncodeKey(tx.num, values) + [SEP])
  }

  /** The document has a row whose leading components are these values. */
  ghost predicate StartsWith(tx: Texts, doc: Doc, fields: seq<Bytes>, values: Row)
  {
    exists row :: row in Rows(tx, doc, fields) && values <= row
  }

  lemma OwnersOf(tx: Texts, fields: seq<Bytes>, km: KeyMap, docs: Docs, k: Bytes, id: Bytes)
    requires Reflects(km, tx, fields, docs)
    ensures id in Owners(km, k) <==> Produces(tx, fields, docs, k, id)
  {
    hide Produces;
    assert k in km && id in km[k] <==> Produces(tx, fields, docs, k, id);
  }

  lemma FullKeyMeans(tx: Texts, doc: Doc, fields: seq<Bytes>, values: Row)
    requires TextsOk(tx) && RowOk(values) && |values| == |fields|
    ensures EncodeKey(tx.num, values) in KeySet(tx, doc, fields) <==> StartsWith(tx, doc, fields, values)
  {
    hide Rows, EncodeKey;
    if EncodeKey(tx.num, values) in KeySet(tx, doc, fields) {
      var row :| row in Rows(tx, doc, fields) && EncodeKey(tx.num, row) == EncodeKey(tx.num, values);
      RowsOk(tx, doc, fields, row);
      KeyInjective(tx.num, row, values);
    }
    if StartsWith(tx, doc, fields, values) {
      var row :| row in Rows(tx, doc, fields) && values <= row;
      RowsOk(tx, doc, fields, row);
      assert row == values;
    }
  }

  /** Some key of the document starts with the text of the values and a separator. */
  ghost predicate HasKeyUnder(tx: Texts, doc: Doc, fields: seq<Bytes>, values: Row)
  {
    exists k :: k in KeySet(tx, doc, fields) && EncodeKey(tx.num, values) + [SEP] <= k
  }

  lemma PartialKeyMeans(tx: Texts, doc: Doc, fields: seq<Bytes>, values: Row)
    requires TextsOk(tx) && RowOk(values) && 0 < |values| < |fields|
    ensures HasKeyUnder(tx, doc, fields, values) <==> StartsWith(tx, doc, fields, values)
  {
    hide Rows, EncodeKey;
    if HasKeyUnder(tx, doc, fields, values) {
      var k :| k in KeySet(tx, doc, fields) && EncodeKey(tx.num, values) + [SEP] <= k;
      var row :| row in Rows(tx, doc, fields) && EncodeKey(tx.num, row) == k;
      RowsOk(tx, doc, fields, row);
      PrefixExact(tx.num, values, row);
    }
    if StartsWith(tx, doc, fields, values) {
      var row :| row in Rows(tx, doc, fields) && values <= row;
      RowsOk(tx, doc, fields, row);
      PrefixExact(tx.num, values, row);
      assert EncodeKey(tx.num, row) in KeySet(tx, doc, fields);
    }
  }

  /** A prefix seek returns precisely the documents with those leading values, even
      when a string holds the separator. */
  lemma SeekIsExact(tx: Texts, fields: seq<Bytes>, km: KeyMap, docs: Docs, values: Row, id: Bytes)
    requires TextsOk(tx) && Reflects(km, tx, fields, docs)
    requires RowOk(values) && 0 < |values| <= |fields|
    ensures id in SeekIds(tx, |fields|, km, values) <==> id in docs && StartsWith(tx, docs[id], fields, values)
  {
    hide StartsWith, KeySet, EncodeKey, HasKeyUnder;
    if |values| == |fields| {
      OwnersOf(tx, fields, km, docs, EncodeKey(tx.num, values), id);
      if id in docs { FullKeyMeans(tx, docs[id], fields, values); }
    } else {
      UnderPrefix(tx, fields, km, docs, values, id);
      if id in docs { PartialKeyMeans(tx, docs[id], fields, values); }
    }
  }

  lemma UnderPrefix(tx: Texts, fields: seq<Bytes>, km: KeyMap, docs: Docs, values: Row, id: Bytes)
    requires Reflects(km, tx, fields, docs)
    ensures id in PrefixIds(km, EncodeKey(tx.num, values) + [SEP])
            <==> id in docs && HasKeyUnder(tx, docs[id], fields, values)
  {
    hide KeySet, EncodeKey;
    var prefix := EncodeKey(tx.num, values) + [SEP];
    if id in PrefixIds(km, prefix) {
      var k :| k in km && prefix <= k && id in km[k];
      assert Produces(tx, fields, docs, k, id);
    }
    if id in docs && HasKeyUnder(tx, docs[id], fields, values) {
      var k :| k in KeySet(tx, docs[id], fields) && prefix <= k;
      assert Produces(tx, fields, docs, k, id);
    }
  }

  // ---------------------------------------------------------------- ranges

  datatype RangeBound = RangeBound(lo: KeyVal, hi: KeyVal, hasLo: bool, hasHi: bool, loIncl: bool, hiIncl: bool)

  predicate AboveLo(v: KeyVal, rb: RangeBound)
  {
    rb.hasLo ==> Rank(v) == Rank(rb.lo) && if rb.loIncl then Compare(v, rb.lo) >= 0 else Compare(v, rb.lo) > 0
  }

  predicate BelowHi(v: KeyVal, rb: RangeBound)
  {
    rb.hasHi ==> Rank(v) == Rank(rb.hi) && if rb.hiIncl then Compare(v, rb.hi) <= 0 else Compare(v, rb.hi) < 0
  }

  /** v lies in the type band of the bounds and meets both; only numbers and strings
      have a band. */
  predicate InRange(v: KeyVal, rb: RangeBound)
  {
    (rb.hasLo || rb.hasHi) && (v.Number? || v.Text?) && AboveLo(v, rb) && BelowHi(v, rb)
  }

  /** The entries whose value is in range, in list order. */
  function Select(ord: seq<OrdEntry>, rb: RangeBound): seq<OrdEntry>
  {
    if ord == [] then []
    else Select(ord[..|ord| - 1], rb) + if InRange(ord[|ord| - 1].val, rb) then [ord[|ord| - 1]] else []
  }

  lemma {:induction false} SelectIsSlice(ord: seq<OrdEntry>, rb: RangeBound, n: nat, start: nat, end: nat)
    requires n <= |ord|
    requires forall i | 0 <= i < n :: InRange(ord[i].val, rb) <==> start <= i < end
    ensures Select(ord[..n], rb) == if start >= n || start >= end then [] else ord[start..if end <= n then end else n]
    decreases n
  {
    hide InRange;
    if n > 0 {
      SelectIsSlice(ord, rb, n - 1, start, end);
      assert ord[..n][..n - 1] == ord[..n - 1] && ord[..n][n - 1] == ord[n - 1];
    }
  }

  /** Comparing with a fixed value only grows along a sorted list. */
  lemma CompareClimbs(ord: seq<OrdEntry>, v: KeyVal, i: nat, j: nat)
    requires Sorted(ord) && i < j < |ord|
    ensures Compare(ord[i].val, v) >= 0 ==> Compare(ord[j].val, v) >= 0
    ensures Compare(ord[i].val, v) > 0 ==> Compare(ord[j].val, v) > 0
    ensures Rank(ord[i].val) <= Rank(ord[j].val)
  {
    var a, b := ord[i].val, ord[j].val;
    assert OrdLess(ord[i], ord[j]);
    assert Compare(a, b) <= 0;
    RankFollows(a, b);
    hide OrdLess, Compare, Sorted;
    CompareLaws(v, a, b);
    CompareLaws(a, b, v);
    CompareLaws(b, v, a);
    CompareLaws(a, v, v);
  }

  lemma RankFollows(a: KeyVal, b: KeyVal)
    ensures Rank(a) < Rank(b) ==> Compare(a, b) < 0
    ensures Compare(a, b) <= 0 ==> Rank(a) <= Rank(b)
  {
  }

  /** The answer of a range seek, entry by entry and id by id, never goes down. */
  ghost predicate PairLess(e: OrdEntry, a: Bytes, f: OrdEntry, b: Bytes)
  {
    OrdLess(e, f) || (e == f && Less(a, b))
  }

  /** The entry each id of a flattened list came from. */
  ghost function Sources(ents: seq<OrdEntry>, km: KeyMap): (s: seq<OrdEntry>)
    ensures |s| == |Flatten(ents, km)|
  {
    if ents == [] then []
    else
      var last := ents[|ents| - 1];
      Sources(ents[..|ents| - 1], km) + seq(|SortedIds(Owners(km, last.key))|, _ => last)
  }

  lemma {:induction false} SourcesAreEntries(ents: seq<OrdEntry>, km: KeyMap, i: nat)
    requires i < |Sources(ents, km)|
    ensures Sources(ents, km)[i] in ents && Flatten(ents, km)[i] in Owners(km, Sources(ents, km)[i].key)
    decreases |ents|
  {
    hide Owners;
    var n := |ents| - 1;
    var before := ents[..n];
    if i < |Sources(before, km)| { SourcesAreEntries(before, km, i); }
  }

  /** Ids come out in ascending (value, key, id) order. */
  lemma {:induction false} FlattenAscends(ents: seq<OrdEntry>, km: KeyMap, i: nat, j: nat)
    requires Sorted(ents) && i < j < |Flatten(ents, km)|
    ensures var s, f := Sources(ents, km), Flatten(ents, km); PairLess(s[i], f[i], s[j], f[j])
    decreases |ents|
  {
    hide Owners, OrdLess, Less;
    var n := |ents| - 1;
    var before := ents[..n];
    var ids := SortedIds(Owners(km, ents[n].key));
    var m := |Flatten(before, km)|;
    if j < m {
      FlattenAscends(before, km, i, j);
    } else if i < m {
      SourcesAreEntries(before, km, i);
      var at :| 0 <= at < |before| && before[at] == Sources(before, km)[i];
      assert OrdLess(ents[at], ents[n]);
    } else {
      assert Less(ids[i - m], ids[j - m]);
    }
  }

  /** The flattened answer holds exactly the owners of the listed keys. */
  lemma {:induction false} FlattenMembers(ents: seq<OrdEntry>, km: KeyMap, id: Bytes)
    ensures id in Flatten(ents, km) <==> exists i | 0 <= i < |ents| :: id in Owners(km, ents[i].key)
  {
    hide Owners;
    if ents != [] {
      var n := |ents| - 1;
      FlattenMembers(ents[..n], km, id);
      var ids := SortedIds(Owners(km, ents[n].key));
      assert id in ids <==> id in Owners(km, ents[n].key);
      if i :| 0 <= i < |ents| && id in Owners(km, ents[i].key) {
        if i < n { assert ents[..n][i] == ents[i]; }
      }
      if i :| 0 <= i < n && id in Owners(km, ents[..n][i].key) {
        assert ents[..n][i] == ents[i];
      }
    }
  }
}
