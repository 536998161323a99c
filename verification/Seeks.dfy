/** Index seeks on a collection, stated over its documents: which ids a seek by leading
    values, by equality and by range returns. */
module Seeks {
  import opened ByteCodec
  import opened Values
  import opened Filters
  import opened IndexKeys
  import opened IndexRows
  import opened KeyMaps
  import opened IndexSpec
  import opened Csr
  import opened Collections
  import opened PlanMeaning
  import OrdList

  // ---------------------------------------------------------------- what is asked of data and filter

  /** No $in list at the top of the filter holds null. */
  predicate NoNullInLists(filter: Doc)
  {
    forall f <- filter ::
      IsOps(filter[f]) && IN in filter[f].fields && filter[f].fields[IN].Arr? ==> Null !in filter[f].fields[IN].items
  }

  /** Each of the fields holds one scalar, null or nothing, in every document. */
  predicate HoldScalars(docs: Docs, fields: seq<Bytes>)
  {
    forall id <- docs :: forall j | 0 <= j < |fields| :: OneScalar(docs[id], fields[j])
  }

  ghost predicate Plannable(c: Collection, filter: Doc)
    reads c, c.indexes
  {
    && c.Valid() && WellFormed(filter) && NoNullInLists(filter)
    && forall i | 0 <= i < |c.indexes| :: HoldScalars(c.docs, c.indexes[i].def.fields)
  }

  predicate Serves(doc: Doc, filter: Doc, fs: set<Bytes>)
  {
    forall f <- fs :: f in filter && FieldMatches(doc, f, filter[f])
  }

  /** ids are exactly the documents that satisfy these fields of the filter. */
  ghost predicate Selects(docs: Docs, filter: Doc, ids: set<Bytes>, fs: set<Bytes>)
  {
    fs <= filter.Keys && forall id :: id in ids <==> id in docs && Serves(docs[id], filter, fs)
  }

  lemma Narrow(docs: Docs, filter: Doc, a: set<Bytes>, s: set<Bytes>, b: set<Bytes>, t: set<Bytes>)
    requires Selects(docs, filter, a, s) && Selects(docs, filter, b, t)
    ensures Selects(docs, filter, a * b, s + t)
  {
    hide FieldMatches;
  }

  lemma AllServed(docs: Docs, filter: Doc, ids: set<Bytes>)
    requires Selects(docs, filter, ids, filter.Keys)
    ensures forall id :: id in ids <==> id in docs && Matches(docs[id], filter)
  {
    hide FieldMatches;
  }

  lemma NoneLost(docs: Docs, filter: Doc, ids: set<Bytes>, fs: set<Bytes>)
    requires Selects(docs, filter, ids, fs)
    ensures forall id :: id in docs && Matches(docs[id], filter) ==> id in ids
  {
    hide FieldMatches;
  }

  // ---------------------------------------------------------------- seeks

  function ToKeyVals(tx: Texts, vals: seq<Value>): Row
  {
    seq(|vals|, i requires 0 <= i < |vals| => ToKeyVal(tx, vals[i]))
  }

  ghost predicate AllScalars(vals: seq<Value>)
  {
    forall i | 0 <= i < |vals| :: Scalar(vals[i])
  }

  lemma SeekMeans(tx: Texts, fields: seq<Bytes>, km: KeyMap, docs: Docs, vals: seq<Value>, got: set<Bytes>)
    requires TextsOk(tx) && Reflects(km, tx, fields, docs) && HoldScalars(docs, fields)
    requires AllScalars(vals) && 0 < |vals| <= |fields|
    requires got == SeekIds(tx, |fields|, km, ToKeyVals(tx, vals))
    ensures forall id :: id in got <==> id in docs && Leads(tx, docs[id], fields, ToKeyVals(tx, vals))
  {
    hide TextsOk, Reflects, SeekIds, OneScalar, Leads, StartsWith;
    var values := ToKeyVals(tx, vals);
    forall id: Bytes
      ensures id in got <==> id in docs && Leads(tx, docs[id], fields, values)
    {
      SeekIsExact(tx, fields, km, docs, values, id);
      if id in docs { StartsWithMeans(tx, docs[id], fields, values); }
    }
  }

  method SeekLeading(c: Collection, i: nat, vals: seq<Value>) returns (got: set<Bytes>)
    requires c.Valid() && i < |c.indexes| && HoldScalars(c.docs, c.indexes[i].def.fields)
    requires AllScalars(vals) && 0 < |vals| <= |c.indexes[i].def.fields|
    modifies c.indexes
    ensures c.Valid()
    ensures forall id :: id in got <==>
              id in c.docs && Leads(c.tx, c.docs[id], c.indexes[i].def.fields, ToKeyVals(c.tx, vals))
  {
    hide TextsOk, Reflects, SeekIds, HoldScalars, Leads;
    got := c.indexes[i].SeekPrefix(ToKeyVals(c.tx, vals));
    SeekMeans(c.tx, c.indexes[i].def.fields, c.indexes[i].Keys(), c.docs, vals, got);
  }

  /** One value on the first field, by whole key when there is no second field. */
  method SeekOne(c: Collection, i: nat, v: Value) returns (got: set<Bytes>)
    requires c.Valid() && i < |c.indexes| && HoldScalars(c.docs, c.indexes[i].def.fields)
    requires Scalar(v) && c.indexes[i].def.fields != []
    modifies c.indexes
    ensures c.Valid()
    ensures forall id :: id in got <==>
              id in c.docs && FieldVal(c.tx, c.docs[id], c.indexes[i].def.fields[0]) == ToKeyVal(c.tx, v)
  {
    hide TextsOk, Reflects, SeekIds, HoldScalars, FieldVal, ToKeyVal;
    var fields := c.indexes[i].def.fields;
    var row := ToKeyVals(c.tx, [v]);
    assert row == [ToKeyVal(c.tx, v)];
    if |fields| == 1 {
      got := c.indexes[i].LookupIDs(row);
      LookupIsSeek(c.tx, c.indexes[i].Keys(), row);
      SeekMeans(c.tx, fields, c.indexes[i].Keys(), c.docs, [v], got);
    } else {
      got := SeekLeading(c, i, [v]);
    }
    forall id | id in c.docs
      ensures Leads(c.tx, c.docs[id], fields, row) <==> FieldVal(c.tx, c.docs[id], fields[0]) == ToKeyVal(c.tx, v)
    {
    }
  }

  lemma LookupIsSeek(tx: Texts, km: KeyMap, row: Row)
    requires |row| == 1
    ensures Owners(km, EncodeKey(tx.num, row)) == SeekIds(tx, 1, km, row)
  {
  }

  /** Some index has this field first. */
  predicate LedBy(c: Collection, field: Bytes)
    reads c
  {
    exists i | 0 <= i < |c.indexes| :: c.indexes[i].def.fields != [] && c.indexes[i].def.fields[0] == field
  }

  method FindForField(c: Collection, field: Bytes) returns (at: Option<nat>)
    ensures at.Some? ==> at.value < |c.indexes| && c.indexes[at.value].def.fields == [field]
    ensures at.None? ==> forall i | 0 <= i < |c.indexes| :: c.indexes[i].def.fields != [field]
  {
    for i := 0 to |c.indexes|
      invariant forall j | 0 <= j < i :: c.indexes[j].def.fields != [field]
    {
      if |c.indexes[i].def.fields| == 1 && c.indexes[i].def.fields[0] == field {
        assert c.indexes[i].def.fields == [field];
        return Some(i);
      }
    }
    return None;
  }

  method FindLeading(c: Collection, field: Bytes, compound: bool) returns (at: Option<nat>)
    ensures at.Some? ==> at.value < |c.indexes| && c.indexes[at.value].def.fields != []
                         && c.indexes[at.value].def.fields[0] == field
    ensures at.None? ==> forall i | 0 <= i < |c.indexes| ::
              var fields := c.indexes[i].def.fields;
              fields == [] || fields[0] != field || (compound && |fields| == 1)
  {
    for i := 0 to |c.indexes|
      invariant forall j | 0 <= j < i ::
        var fields := c.indexes[j].def.fields;
        fields == [] || fields[0] != field || (compound && |fields| == 1)
    {
      var fields := c.indexes[i].def.fields;
      if fields != [] && (!compound || |fields| > 1) && fields[0] == field { return Some(i); }
    }
    return None;
  }

  /** The union over the values, through a single-field index or, failing that, through
      a compound index that starts with the field. */
  method SeekEqualityField(c: Collection, field: Bytes, vals: seq<Value>)
    returns (got: Option<set<Bytes>>, ghost used: nat)
    requires c.Valid() && AllScalars(vals)
    requires forall i | 0 <= i < |c.indexes| :: HoldScalars(c.docs, c.indexes[i].def.fields)
    modifies c.indexes
    ensures c.Valid()
    ensures got.Some? <==> LedBy(c, field)
    ensures got.Some? ==> used < |c.indexes| && c.indexes[used].def.fields != [] && c.indexes[used].def.fields[0] == field
    ensures got.Some? ==> forall id :: id in got.value <==> id in c.docs && HasVal(c.tx, c.docs[id], field, vals)
  {
    hide TextsOk, Reflects, HoldScalars, FieldVal, ToKeyVal, HasVal;
    var at := FindForField(c, field);
    if at == None { at := FindLeading(c, field, true); }
    if at == None {
      NotLed(c, field);
      return None, 0;
    }
    var ids: set<Bytes> := {};
    NoValues(c.tx, c.docs, field);
    for i := 0 to |vals|
      invariant c.Valid()
      invariant forall id :: id in ids <==> id in c.docs && HasVal(c.tx, c.docs[id], field, vals[..i])
    {
      var more := SeekOne(c, at.value, vals[i]);
      OneMoreValue(c.tx, c.docs, field, vals, i);
      ids := ids + more;
    }
    assert vals[..|vals|] == vals;
    return Some(ids), at.value;
  }

  lemma NotLed(c: Collection, field: Bytes)
    requires forall i | 0 <= i < |c.indexes| :: c.indexes[i].def.fields != [field]
    requires forall i | 0 <= i < |c.indexes| ::
               var fields := c.indexes[i].def.fields;
               fields == [] || fields[0] != field || |fields| == 1
    ensures !LedBy(c, field)
  {
    forall i | 0 <= i < |c.indexes|
      ensures c.indexes[i].def.fields == [] || c.indexes[i].def.fields[0] != field
    {
      var fields := c.indexes[i].def.fields;
      if |fields| == 1 { assert fields == [fields[0]]; }
    }
  }

  lemma NoValues(tx: Texts, docs: Docs, field: Bytes)
    ensures forall id <- docs :: !HasVal(tx, docs[id], field, [])
  {
  }

  lemma OneMoreValue(tx: Texts, docs: Docs, field: Bytes, vals: seq<Value>, i: nat)
    requires i < |vals|
    ensures forall id <- docs :: HasVal(tx, docs[id], field, vals[..i + 1])
              <==> HasVal(tx, docs[id], field, vals[..i]) || FieldVal(tx, docs[id], field) == ToKeyVal(tx, vals[i])
  {
    hide FieldVal, ToKeyVal;
    var a, b := vals[..i], vals[..i + 1];
    assert b[i] == vals[i];
    forall id | id in docs
      ensures HasVal(tx, docs[id], field, b)
              <==> HasVal(tx, docs[id], field, a) || FieldVal(tx, docs[id], field) == ToKeyVal(tx, vals[i])
    {
      if j :| 0 <= j < |a| && ToKeyVal(tx, a[j]) == FieldVal(tx, docs[id], field) { assert b[j] == a[j]; }
      if j :| 0 <= j < |b| && ToKeyVal(tx, b[j]) == FieldVal(tx, docs[id], field) {
        if j < i { assert a[j] == b[j]; }
      }
    }
  }

  /** A range seek through an index, as a list in index order. */
  method SeekRangeField(c: Collection, i: nat, rb: RangeBound) returns (ids: seq<Bytes>)
    requires c.Valid() && i < |c.indexes| && HoldScalars(c.docs, c.indexes[i].def.fields)
    requires c.indexes[i].def.fields != []
    modifies c.indexes
    ensures c.Valid() && NoRepeats(ids) && Rising(c.tx, c.docs, c.indexes[i].def.fields[0], ids)
    ensures forall id :: id in ids <==>
              id in c.docs && InRange(FieldVal(c.tx, c.docs[id], c.indexes[i].def.fields[0]), rb)
  {
    hide TextsOk, Reflects, HoldScalars, FieldVal, InRange, Flatten, Select, Rising;
    var idx := c.indexes[i];
    ids := idx.SeekRange(rb);
    RangeIsExact(c.tx, idx.def.fields, idx.ord, idx.Keys(), c.docs, rb);
  }

  /** The ids come in ascending order of a field's value. */
  ghost predicate Rising(tx: Texts, docs: Docs, f: Bytes, ids: seq<Bytes>)
  {
    && (forall i | 0 <= i < |ids| :: ids[i] in docs)
    && forall i, j | 0 <= i < j < |ids| :: Compare(FieldVal(tx, docs[ids[i]], f), FieldVal(tx, docs[ids[j]], f)) <= 0
  }

  predicate NoRepeats(s: seq<Bytes>)
  {
    forall i, j | 0 <= i < j < |s| :: s[i] != s[j]
  }

  lemma RangeIsExact(tx: Texts, fields: seq<Bytes>, ord: seq<OrdEntry>, km: KeyMap, docs: Docs, rb: RangeBound)
    requires TextsOk(tx) && fields != [] && OrdOk(tx, |fields|, ord, km.Keys) && OrdList.Sorted(ord)
    requires Reflects(km, tx, fields, docs) && HoldScalars(docs, fields)
    ensures var ids := Flatten(Select(ord, rb), km);
            && NoRepeats(ids) && Rising(tx, docs, fields[0], ids)
            && forall id :: id in ids <==> id in docs && InRange(FieldVal(tx, docs[id], fields[0]), rb)
  {
    hide TextsOk, InRange, Flatten, Select, Reflects, HoldScalars, FieldVal, OrdOk, OrdList.Sorted, Rising;
    SelectKeepsOrder(ord, rb);
    forall id: Bytes
      ensures id in Flatten(Select(ord, rb), km)
              <==> id in docs && InRange(FieldVal(tx, docs[id], fields[0]), rb)
    {
      FlattenMembers(Select(ord, rb), km, id);
      InSelected(tx, fields, ord, km, docs, rb, id);
    }
    SelectOk(tx, |fields|, ord, rb, km.Keys);
    NoIdTwice(tx, fields, Select(ord, rb), km, docs);
  }

  lemma {:induction false} SelectMembers(ord: seq<OrdEntry>, rb: RangeBound, e: OrdEntry)
    ensures e in Select(ord, rb) <==> e in ord && InRange(e.val, rb)
  {
    hide InRange;
    if ord != [] {
      var n := |ord| - 1;
      SelectMembers(ord[..n], rb, e);
      assert ord == ord[..n] + [ord[n]];
    }
  }

  lemma SelectOk(tx: Texts, n: nat, ord: seq<OrdEntry>, rb: RangeBound, keys: set<Bytes>)
    requires OrdOk(tx, n, ord, keys)
    ensures AllOk(tx, n, Select(ord, rb))
  {
    hide EntryOk, Select, InRange;
    var sel := Select(ord, rb);
    forall i | 0 <= i < |sel|
      ensures EntryOk(tx, n, sel[i])
    {
      SelectMembers(ord, rb, sel[i]);
    }
  }

  lemma {:induction false} SelectKeepsOrder(ord: seq<OrdEntry>, rb: RangeBound)
    requires OrdList.Sorted(ord)
    ensures OrdList.Sorted(Select(ord, rb))
  {
    hide InRange, OrdLess;
    if ord != [] {
      var n := |ord| - 1;
      SelectKeepsOrder(ord[..n], rb);
      var front := Select(ord[..n], rb);
      forall i | 0 <= i < |front|
        ensures OrdLess(front[i], ord[n])
      {
        SelectMembers(ord[..n], rb, front[i]);
        var j :| 0 <= j < n && ord[..n][j] == front[i];
        assert OrdLess(ord[j], ord[n]);
      }
    }
  }

  /** The entry a document is listed under, when its fields hold single values. */
  function EntryFor(tx: Texts, doc: Doc, fields: seq<Bytes>): OrdEntry
    requires fields != []
  {
    OrdEntry(FieldVal(tx, doc, fields[0]), EncodeKey(tx.num, RowFor(tx, doc, fields)))
  }

  lemma OneKey(tx: Texts, doc: Doc, fields: seq<Bytes>)
    requires fields != [] && forall j | 0 <= j < |fields| :: OneScalar(doc, fields[j])
    ensures KeySet(tx, doc, fields) == {EntryFor(tx, doc, fields).key}
  {
    hide OneScalar, FieldVal, EncodeKey, RowFor;
    OneRow(tx, doc, fields);
    var row := RowFor(tx, doc, fields);
    assert row in [row];
  }

  lemma RowsAreOk(tx: Texts, doc: Doc, fields: seq<Bytes>)
    requires TextsOk(tx) && fields != [] && forall j | 0 <= j < |fields| :: OneScalar(doc, fields[j])
    ensures EntryOk(tx, |fields|, EntryFor(tx, doc, fields))
  {
    hide OneScalar, FieldVal, EncodeKey;
    OneRow(tx, doc, fields);
    var row := RowFor(tx, doc, fields);
    assert row in [row];
    RowsOk(tx, doc, fields, row);
    assert EntryOf(tx, |fields|, EntryFor(tx, doc, fields), row);
  }

  lemma OwnersHaveTheEntry(tx: Texts, fields: seq<Bytes>, e: OrdEntry, km: KeyMap, docs: Docs, id: Bytes)
    requires TextsOk(tx) && fields != [] && EntryOk(tx, |fields|, e)
    requires Reflects(km, tx, fields, docs) && HoldScalars(docs, fields)
    ensures id in Owners(km, e.key) <==> id in docs && e == EntryFor(tx, docs[id], fields)
  {
    hide TextsOk, Reflects, EntryOk, EntryFor, KeySet, OneScalar, Owners;
    OwnersOf(tx, fields, km, docs, e.key, id);
    if id in docs {
      OneKey(tx, docs[id], fields);
      RowsAreOk(tx, docs[id], fields);
      if e.key == EntryFor(tx, docs[id], fields).key {
        SameKeySameEntry(tx, |fields|, e, EntryFor(tx, docs[id], fields));
      }
    }
  }

  lemma InSelected(tx: Texts, fields: seq<Bytes>, ord: seq<OrdEntry>, km: KeyMap, docs: Docs, rb: RangeBound, id: Bytes)
    requires TextsOk(tx) && fields != [] && OrdOk(tx, |fields|, ord, km.Keys)
    requires Reflects(km, tx, fields, docs) && HoldScalars(docs, fields)
    ensures (exists i | 0 <= i < |Select(ord, rb)| :: id in Owners(km, Select(ord, rb)[i].key))
            <==> id in docs && InRange(FieldVal(tx, docs[id], fields[0]), rb)
  {
    hide TextsOk, Reflects, HoldScalars, InRange, FieldVal, Select, EntryOk, Owners;
    var sel := Select(ord, rb);
    if i :| 0 <= i < |sel| && id in Owners(km, sel[i].key) {
      SelectMembers(ord, rb, sel[i]);
      var j :| 0 <= j < |ord| && ord[j] == sel[i];
      OwnersHaveTheEntry(tx, fields, sel[i], km, docs, id);
    }
    if id in docs && InRange(FieldVal(tx, docs[id], fields[0]), rb) {
      var e := EntryFor(tx, docs[id], fields);
      ListedEntry(tx, fields, ord, km, docs, id);
      SelectMembers(ord, rb, e);
      var i :| 0 <= i < |sel| && sel[i] == e;
      var j :| 0 <= j < |ord| && ord[j] == e;
      OwnersHaveTheEntry(tx, fields, e, km, docs, id);
    }
  }

  lemma ListedEntry(tx: Texts, fields: seq<Bytes>, ord: seq<OrdEntry>, km: KeyMap, docs: Docs, id: Bytes)
    requires TextsOk(tx) && fields != [] && OrdOk(tx, |fields|, ord, km.Keys) && id in docs
    requires Reflects(km, tx, fields, docs) && HoldScalars(docs, fields)
    ensures EntryFor(tx, docs[id], fields) in ord
  {
    hide TextsOk, Reflects, EntryOk, EntryFor, KeySet, OneScalar;
    var e := EntryFor(tx, docs[id], fields);
    RowsAreOk(tx, docs[id], fields);
    OwnersHaveTheEntry(tx, fields, e, km, docs, id);
    var j := OrdList.AtKey(ord, e.key);
    SameKeySameEntry(tx, |fields|, e, ord[j]);
  }

  lemma OrdLessCompares(a: OrdEntry, b: OrdEntry)
    ensures OrdLess(a, b) || a == b ==> Compare(a.val, b.val) <= 0
  {
    CompareLaws(a.val, a.val, a.val);
  }

  lemma SourceEntry(tx: Texts, fields: seq<Bytes>, ents: seq<OrdEntry>, km: KeyMap, docs: Docs, i: nat)
    requires TextsOk(tx) && fields != [] && AllOk(tx, |fields|, ents)
    requires Reflects(km, tx, fields, docs) && HoldScalars(docs, fields) && i < |Flatten(ents, km)|
    ensures var id := Flatten(ents, km)[i];
            id in docs && Sources(ents, km)[i] == EntryFor(tx, docs[id], fields)
    ensures Sources(ents, km)[i].val == FieldVal(tx, docs[Flatten(ents, km)[i]], fields[0])
  {
    hide TextsOk, Reflects, HoldScalars, EntryOk, Flatten, EncodeKey, RowFor, FieldVal;
    SourcesAreEntries(ents, km, i);
    var e := Sources(ents, km)[i];
    var j :| 0 <= j < |ents| && ents[j] == e;
    OwnersHaveTheEntry(tx, fields, e, km, docs, Flatten(ents, km)[i]);
  }

  /** A document has one entry, so a range lists it at most once. */
  lemma NoIdTwice(tx: Texts, fields: seq<Bytes>, ents: seq<OrdEntry>, km: KeyMap, docs: Docs)
    requires TextsOk(tx) && fields != [] && OrdList.Sorted(ents) && AllOk(tx, |fields|, ents)
    requires Reflects(km, tx, fields, docs) && HoldScalars(docs, fields)
    ensures NoRepeats(Flatten(ents, km)) && Rising(tx, docs, fields[0], Flatten(ents, km))
  {
    hide TextsOk, Reflects, HoldScalars, EntryOk, EntryFor, Flatten, OrdLess, OrdList.Sorted, Less, Compare,
        FieldVal, AllOk;
    var f, s := Flatten(ents, km), Sources(ents, km);
    forall i | 0 <= i < |f|
      ensures f[i] in docs
    {
      SourceEntry(tx, fields, ents, km, docs, i);
    }
    forall i, j | 0 <= i < j < |f|
      ensures f[i] != f[j]
      ensures Compare(FieldVal(tx, docs[f[i]], fields[0]), FieldVal(tx, docs[f[j]], fields[0])) <= 0
    {
      FlattenAscends(ents, km, i, j);
      SourceEntry(tx, fields, ents, km, docs, i);
      SourceEntry(tx, fields, ents, km, docs, j);
      OrdLessLaws(s[i], s[i], s[i]);
      LessIrreflexive(f[i]);
      OrdLessCompares(s[i], s[j]);
    }
  }
}
