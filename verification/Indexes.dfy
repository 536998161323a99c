/** A secondary index as the program keeps it: a hash of keys, a lazily sorted list of
    the same keys and, while nothing has changed since it was built, a flat matrix. */
module Indexes {
  import opened ByteCodec
  import opened Values
  import opened SortedLists
  import opened IndexKeys
  import opened IndexRows
  import opened KeyMaps
  import opened OrdList
  import opened IndexSpec
  import opened Csr

  datatype IdxRow = IdxRow(k: Bytes, v: KeyVal, ids: seq<Bytes>)
  datatype Payload = Payload(fields: seq<Bytes>, uniq: bool, rows: seq<IdxRow>, csr: Option<Matrix>)

  ghost predicate RowSays(r: IdxRow, e: OrdEntry, km: KeyMap)
  {
    r.k == e.key && r.v == e.val && SortsSet(r.ids, Owners(km, e.key))
  }

  /** Persisted rows say what the ordered list and the key map say. */
  ghost predicate RowsSay(rows: seq<IdxRow>, ord: seq<OrdEntry>, km: KeyMap)
  {
    |rows| == |ord| && forall i | 0 <= i < |rows| :: RowSays(rows[i], ord[i], km)
  }

  /** What loading trusts: the matrix when it is accepted, otherwise the rows. */
  ghost predicate Says(p: Payload, crc: Body -> int, ord: seq<OrdEntry>, km: KeyMap)
  {
    if p.csr.Some? && Accepted(p.csr.value, crc) then Mirrors(p.csr.value.body, ord, km)
    else RowsSay(p.rows, ord, km)
  }

  /** An index could hold this list and key map. */
  ghost predicate Storable(tx: Texts, def: Def, ord: seq<OrdEntry>, km: KeyMap)
  {
    && NoEmpty(km) && (def.uniq ==> OneOwner(km))
    && OrdOk(tx, |def.fields|, ord, km.Keys) && Sorted(ord)
  }

  /** Some key of the matrix has more than one owner. */
  predicate CrowdedMatrix(b: Body)
    requires Safe(b)
  {
    exists i | 0 <= i < |b.keys| :: b.indptr[i + 1] - b.indptr[i] > 1
  }

  /** The same of whatever loading trusts. */
  predicate Crowded(p: Payload, crc: Body -> int)
  {
    if p.csr.Some? && Accepted(p.csr.value, crc) then Safe(p.csr.value.body) && CrowdedMatrix(p.csr.value.body)
    else exists i | 0 <= i < |p.rows| :: |p.rows[i].ids| > 1
  }

  class Index {
    const tx: Texts
    const crc: Body -> int
    const def: Def
    var entries: map<Bytes, set<Bytes>>
    var unique: map<Bytes, Bytes>
    var ord: seq<OrdEntry>
    var ordDirty: bool
    var matrix: Option<Matrix>

    /** Which ids own which key, whichever of the two hashes is in use. */
    function Keys(): KeyMap
      reads this`entries, this`unique
    {
      if def.uniq then UniqueMap(unique) else entries
    }

    ghost predicate Valid()
      reads this
    {
      && TextsOk(tx)
      && (if def.uniq then entries == map[] else unique == map[])
      && NoEmpty(entries)
      && OrdOk(tx, |def.fields|, ord, Keys().Keys)
      && (!ordDirty ==> Sorted(ord))
      && (matrix.Some? ==> !ordDirty && Mirrors(matrix.value.body, ord, Keys()))
    }

    constructor (tx: Texts, crc: Body -> int, def: Def)
      requires TextsOk(tx)
      ensures Valid() && Keys() == map[] && this.tx == tx && this.crc == crc && this.def == def
    {
      this.tx, this.crc, this.def := tx, crc, def;
      entries, unique, ord, ordDirty, matrix := map[], map[], [], true, None;
    }

    method EnsureOrd()
      requires Valid()
      modifies this`ord, this`ordDirty
      ensures Valid() && !ordDirty && Keys() == old(Keys())
    {
      hide KeysOf, TextsOk, EntryOk, Mirrors;
      if !ordDirty { return; }
      var sorted := Sort(ord);
      OrdSorts(tx, |def.fields|, ord, Keys().Keys, sorted);
      ord := sorted;
      ordDirty := false;
    }

    method OrdAdd(e: OrdEntry)
      requires !ordDirty ==> Sorted(ord)
      requires e.key !in KeysOf(ord)
      modifies this`ord
      ensures Inserted(old(ord), e, ord) && (!ordDirty ==> Sorted(ord))
    {
      ord := Add(ord, ordDirty, e);
    }

    method OrdRemove(e: OrdEntry)
      requires !ordDirty ==> Sorted(ord)
      requires e.key in KeysOf(ord)
      modifies this`ord
      ensures Removed(old(ord), e.key, ord) && (!ordDirty ==> Sorted(ord))
    {
      ord := Remove(ord, ordDirty, e);
    }

    method AddKey(k: Bytes, val: KeyVal, id: Bytes)
      requires Valid() && EntryOk(tx, |def.fields|, OrdEntry(val, k))
      requires def.uniq ==> !Conflict(Keys(), {k}, id)
      modifies this
      ensures Valid() && Keys() == AddKeys(old(Keys()), {k}, id)
      ensures matrix == None && ordDirty == old(ordDirty)
    {
      hide TextsOk, EntryOk, OrdOk, Sorted, Inserted, Mirrors, AddKeys, UniqueMap;
      var n := |def.fields|;
      ghost var km := Keys();
      SameKeys(tx, n, ord, km.Keys);
      UniqueKeys(unique);
      matrix := None;
      ghost var was := ord;
      var e := OrdEntry(val, k);
      if def.uniq {
        if k !in unique {
          OrdAdd(e);
          OrdGrows(tx, n, was, km.Keys, e, ord);
        }
        OneUniqueAdded(unique, k, id);
        unique := unique[k := id];
      } else {
        var owners := {};
        if k !in entries {
          OrdAdd(e);
          OrdGrows(tx, n, was, km.Keys, e, ord);
        } else {
          owners := entries[k];
        }
        OneAdded(entries, k, id);
        entries := entries[k := owners + {id}];
      }
      assert Keys().Keys == if k in km then km.Keys else km.Keys + {k};
    }

    method RemoveKey(k: Bytes, val: KeyVal, id: Bytes)
      requires Valid()
      modifies this
      ensures Valid() && Keys() == RemoveKeys(old(Keys()), {k}, id)
      ensures matrix == None && ordDirty == old(ordDirty)
    {
      hide TextsOk, EntryOk, OrdOk, Sorted, Removed, Mirrors, RemoveKeys, UniqueMap;
      var n := |def.fields|;
      ghost var km := Keys();
      SameKeys(tx, n, ord, km.Keys);
      UniqueKeys(unique);
      matrix := None;
      ghost var was := ord;
      if def.uniq {
        OneUniqueRemoved(unique, k, id);
        if k in unique && unique[k] == id {
          unique := unique - {k};
          OrdRemove(OrdEntry(val, k));
          OrdShrinks(tx, n, was, km.Keys, k, ord);
        }
      } else {
        OneRemoved(entries, k, id);
        if k in entries {
          var left := entries[k] - {id};
          if left == {} {
            entries := entries - {k};
            OrdRemove(OrdEntry(val, k));
            OrdShrinks(tx, n, was, km.Keys, k, ord);
          } else {
            entries := entries[k := left];
          }
        }
      }
      assert Keys().Keys == km.Keys || Keys().Keys == km.Keys - {k};
    }

    /** Index every row of a document, or change nothing when a unique key belongs to
        another document. */
    method AddDoc(doc: Doc, id: Bytes) returns (ok: bool)
      requires Valid()
      modifies this
      ensures Valid()
      ensures ok == !(def.uniq && Conflict(old(Keys()), KeySet(tx, doc, def.fields), id))
      ensures Keys() == if ok then AddKeys(old(Keys()), KeySet(tx, doc, def.fields), id) else old(Keys())
    {
      hide TextsOk, EntryOk, OrdOk, Sorted, Mirrors, Rows, AddKeys;
      var rows := ExtractRows(tx, doc, def.fields);
      ghost var km := Keys();
      var keys: seq<Bytes>, vals: seq<KeyVal> := [], [];
      var seen: set<Bytes> := {};
      for i := 0 to |rows|
        invariant unchanged(this) && Valid() && Keys() == km
        invariant seen == RowKeys(tx, rows[..i]) && Staged(tx, |def.fields|, keys, vals, seen)
        invariant def.uniq ==> !Conflict(km, seen, id)
      {
        var k := EncodeKey(tx.num, rows[i]);
        NextRow(tx, rows, i);
        RowEntry(tx, doc, def.fields, rows[i]);
        if k in seen {
          assert seen + {k} == seen;
          continue;
        }
        if def.uniq && k in unique && unique[k] != id {
          assert k in km && km[k] == {unique[k]} && k in RowKeys(tx, rows[..i + 1]);
          RowsGrow(tx, rows, i + 1);
          return false;
        }
        NoNewConflict(km, seen, k, id, def.uniq, unique);
        StageOne(tx, |def.fields|, keys, vals, seen, k, First(rows[i]));
        seen := seen + {k};
        keys, vals := keys + [k], vals + [First(rows[i])];
      }
      assert rows[..|rows|] == rows;
      AddNothing(km, id);
      for i := 0 to |keys|
        invariant Valid() && Keys() == AddKeys(km, SetOf(keys[..i]), id)
        invariant def.uniq ==> !Conflict(Keys(), SetOf(keys[i..]), id)
      {
        StagedAt(tx, |def.fields|, keys, vals, seen, i);
        ConflictFree(Keys(), keys, i, id);
        AddTwice(km, SetOf(keys[..i]), {keys[i]}, id);
        ghost var now := Keys();
        AddKey(keys[i], vals[i], id);
        StillConflictFree(now, SetOf(keys[i..]), keys[i], SetOf(keys[i + 1..]), id);
      }
      assert keys[..|keys|] == keys;
      return true;
    }

    /** Drop every row of a document. */
    method RemoveDoc(doc: Doc, id: Bytes)
      requires Valid()
      modifies this
      ensures Valid()
      ensures Keys() == RemoveKeys(old(Keys()), KeySet(tx, doc, def.fields), id)
    {
      hide TextsOk, EntryOk, OrdOk, Sorted, Mirrors, Rows, RemoveKeys;
      var rows := ExtractRows(tx, doc, def.fields);
      ghost var km := Keys();
      KeysHaveOwners();
      RemoveNothing(km, id);
      assert RowKeys(tx, rows[..0]) == {};
      for i := 0 to |rows|
        invariant Valid() && Keys() == RemoveKeys(km, RowKeys(tx, rows[..i]), id)
      {
        NextRow(tx, rows, i);
        var k := EncodeKey(tx.num, rows[i]);
        RemoveTwice(km, RowKeys(tx, rows[..i]), {k}, id);
        RemoveKey(k, First(rows[i]), id);
      }
      assert rows[..|rows|] == rows;
    }

    // -------------------------------------------------------------- lookups

    method LookupIDs(values: Row) returns (out: set<Bytes>)
      requires Valid()
      ensures out == Owners(Keys(), EncodeKey(tx.num, values))
    {
      var k := EncodeKey(tx.num, values);
      if def.uniq {
        out := if k in unique then {unique[k]} else {};
      } else {
        out := if k in entries then entries[k] else {};
      }
    }

    method CountKey(values: Row) returns (n: nat)
      requires Valid()
      ensures n == |Owners(Keys(), EncodeKey(tx.num, values))|
    {
      var k := EncodeKey(tx.num, values);
      if def.uniq {
        n := if k in unique then 1 else 0;
      } else {
        n := if k in entries then |entries[k]| else 0;
      }
    }

    /** Whether every row of the document is indexed under its id. */
    method Covers(doc: Doc, id: Bytes) returns (all: bool)
      requires Valid()
      ensures all <==> forall k <- KeySet(tx, doc, def.fields) :: id in Owners(Keys(), k)
    {
      hide Rows, EncodeKey;
      var rows := ExtractRows(tx, doc, def.fields);
      for i := 0 to |rows|
        invariant forall j | 0 <= j < i :: id in Owners(Keys(), EncodeKey(tx.num, rows[j]))
      {
        var k := EncodeKey(tx.num, rows[i]);
        if def.uniq {
          if !(k in unique && unique[k] == id) {
            assert id !in Owners(Keys(), k) && k in KeySet(tx, doc, def.fields);
            return false;
          }
        } else if !(k in entries && id in entries[k]) {
          assert id !in Owners(Keys(), k) && k in KeySet(tx, doc, def.fields);
          return false;
        }
      }
      return true;
    }

    // -------------------------------------------------------------- prefix seeks

    method CollectPrefixScan(prefix: Bytes) returns (out: set<Bytes>)
      requires Valid()
      ensures out == PrefixIds(Keys(), prefix)
    {
      out := {};
      var km := Keys();
      var todo := km.Keys;
      while todo != {}
        invariant todo <= km.Keys && out == PrefixIds(km - todo, prefix)
        decreases todo
      {
        var k :| k in todo;
        PrefixStep(km, todo, k, prefix);
        if prefix <= k { out := out + km[k]; }
        todo := todo - {k};
      }
      assert km - todo == km;
    }

    /** The ids of the documents whose leading values are these. */
    method SeekPrefix(values: Row) returns (out: set<Bytes>)
      requires Valid() && RowOk(values) && |values| <= |def.fields|
      modifies this`ord, this`ordDirty
      ensures Valid() && Keys() == old(Keys())
      ensures out == SeekIds(tx, |def.fields|, Keys(), values)
    {
      hide TextsOk, EntryOk, KeysOf, Mirrors, EncodeKey, PrefixIds, Compare, UniqueMap, OrdLess;
      if |values| == 0 { return {}; }
      if |values| == |def.fields| {
        out := LookupIDs(values);
        return;
      }
      var prefix := EncodeKey(tx.num, values) + [SEP];
      var target := values[0];
      var rank := Rank(target);
      if rank == 0 || rank == 3 || rank == 4 {
        out := CollectPrefixScan(prefix);
        return;
      }
      EnsureOrd();
      var s := ord;
      EdgesClimb(s, rank, target);
      var start := SearchVals(s, v => AtLeast(v, rank, target));
      var end := SearchVals(s, v => Above(v, rank, target));
      SearchFound(s, rank, target, start, end);
      out := CollectBand(start, end, prefix);
      GatherIsPrefix(tx, |def.fields|, s, Keys(), values, start, end);
    }

    method CollectBand(start: nat, end: nat, prefix: Bytes) returns (out: set<Bytes>)
      requires Valid() && start <= end <= |ord|
      ensures out == Gather(ord[start..end], Keys(), prefix)
    {
      hide TextsOk, OrdOk, Sorted, Mirrors, UniqueMap;
      out := {};
      assert ord[start..start] == [];
      for i := start to end
        invariant out == Gather(ord[start..i], Keys(), prefix)
      {
        GatherStep(ord, start, i, Keys(), prefix);
        var k := ord[i].key;
        if !(prefix <= k) { continue; }
        if def.uniq {
          UniqueKeys(unique);
          if k in unique { out := out + {unique[k]}; }
        } else if k in entries {
          out := out + entries[k];
        }
      }
    }

    // -------------------------------------------------------------- ranges

    method IdsFor(k: Bytes) returns (ids: seq<Bytes>)
      requires Valid()
      ensures ids == SortedIds(Owners(Keys(), k))
    {
      hide Less;
      if def.uniq {
        ids := if k in unique then [unique[k]] else [];
      } else {
        ids := SortedMembers(if k in entries then entries[k] else {});
      }
      SortsSetUnique(ids, Owners(Keys(), k));
    }

    /** The ids of a stretch of the ordered list, from the matrix when it is current and
        from the hash otherwise: the same list either way. */
    method CollectRange(start: nat, end: nat) returns (out: seq<Bytes>)
      requires Valid() && end <= |ord| && start <= |ord|
      ensures out == if start <= end then Flatten(ord[start..end], Keys()) else []
    {
      hide TextsOk, OrdOk, Sorted, Mirrors;
      out := [];
      if start > end { return; }
      if matrix.Some? && !ordDirty && |matrix.value.body.indptr| == |ord| + 1 {
        out := RangeFromMatrix(matrix.value.body, ord, Keys(), start, end);
        return;
      }
      assert ord[start..start] == [];
      for i := start to end
        invariant out == Flatten(ord[start..i], Keys())
      {
        FlattenStep(ord, start, i, Keys());
        var ids := IdsFor(ord[i].key);
        out := out + ids;
      }
    }

    /** The ids whose first value is in range, in list order. */
    method SeekRange(rb: RangeBound) returns (out: seq<Bytes>)
      requires Valid()
      modifies this`ord, this`ordDirty
      ensures Valid() && Keys() == old(Keys()) && !ordDirty
      ensures out == Flatten(Select(ord, rb), Keys())
    {
      hide TextsOk, EntryOk, KeysOf, Mirrors, Compare, OrdLess, InRange, DistinctKeys;
      EnsureOrd();
      var s := ord;
      var rank: int := -1;
      if rb.hasLo && rb.hasHi {
        if Rank(rb.lo) != Rank(rb.hi) {
          NothingInRange(s, rb);
          return [];
        }
        rank := Rank(rb.lo);
      } else if rb.hasLo {
        rank := Rank(rb.lo);
      } else if rb.hasHi {
        rank := Rank(rb.hi);
      } else {
        NothingInRange(s, rb);
        return [];
      }
      if rank == 0 || rank == 3 || rank == 4 {
        NothingInRange(s, rb);
        return [];
      }
      RangeEdgesClimb(s, rank, rb);
      var start := SearchVals(s, v => PastLo(v, rank, rb));
      var end := SearchVals(s, v => PastHi(v, rank, rb));
      if !rb.hasHi {
        end := SearchVals(s, v => Rank(v) > rank);
      }
      if !rb.hasLo {
        start := SearchVals(s, v => Rank(v) >= rank);
      }
      EdgesAreTheRange(s, rank, rb, start, end);
      out := CollectRange(start, end);
    }

    /** The whole index in (value, key, id) order. */
    method OrderedIDs() returns (out: seq<Bytes>)
      requires Valid()
      modifies this`ord, this`ordDirty
      ensures Valid() && Keys() == old(Keys()) && !ordDirty
      ensures out == Flatten(ord, Keys())
    {
      EnsureOrd();
      out := AllIDs();
    }

    method AllIDs() returns (out: seq<Bytes>)
      requires Valid()
      ensures out == Flatten(ord, Keys())
    {
      hide TextsOk, OrdOk, Sorted, RowMirrors;
      out := [];
      assert ord[0..|ord|] == ord;
      if matrix.Some? && !ordDirty && |matrix.value.body.indptr| == |ord| + 1 {
        var b := matrix.value.body;
        out := ReadCells(b, 0, |b.indices|);
        CellsAreFlat(b, ord, Keys(), 0, |ord|);
        return;
      }
      for i := 0 to |ord|
        invariant out == Flatten(ord[0..i], Keys())
      {
        FlattenStep(ord, 0, i, Keys());
        var ids := IdsFor(ord[i].key);
        out := out + ids;
      }
    }

    // -------------------------------------------------------------- persistence

    /** Rows and matrix of the whole index; the matrix also becomes the live flat view. */
    method Serialize() returns (p: Payload)
      requires Valid()
      modifies this`ord, this`ordDirty, this`matrix
      ensures Valid() && Keys() == old(Keys()) && !ordDirty && matrix == p.csr
      ensures p.fields == def.fields && p.uniq == def.uniq && Storable(tx, def, ord, Keys())
      ensures RowsSay(p.rows, ord, Keys())
      ensures p.csr.Some? && Accepted(p.csr.value, crc) && Mirrors(p.csr.value.body, ord, Keys())
    {
      hide TextsOk, EntryOk, KeysOf, Sorted, RowSays, Safe, RowMirrors;
      EnsureOrd();
      var rows, body := Snapshot();
      SafeIsAccepted(body, crc);
      matrix := Some(Matrix(body, crc(body)));
      p := Payload(def.fields, def.uniq, rows, matrix);
      KeysHaveOwners();
    }

    method Snapshot() returns (rows: seq<IdxRow>, body: Body)
      requires Valid()
      ensures RowsSay(rows, ord, Keys()) && Mirrors(body, ord, Keys())
    {
      hide TextsOk, OrdOk, Sorted, RowMirrors, SortsSet, Names, ColumnsOk;
      rows, body := [], EmptyBody();
      var idCol := map[];
      NoColumns();
      EmptyMirrors(ord, Keys());
      for i := 0 to |ord|
        invariant RowsSay(rows, ord[..i], Keys()) && Mirrors(body, ord[..i], Keys())
        invariant ColumnsOk(idCol, body.ids)
      {
        var e := ord[i];
        var ids := IdsFor(e.key);
        RowsSayMore(rows, ord, i, Keys(), IdxRow(e.key, e.val, ids));
        rows := rows + [IdxRow(e.key, e.val, ids)];
        var cols, idCol', dict := NameColumns(ids, idCol, body.ids);
        WithRowMirrors(body, ord, i, Keys(), cols, dict, ids);
        body, idCol := WithRow(body, e, cols, dict), idCol';
      }
      assert ord[..|ord|] == ord;
    }

    /** One persisted row: its key, its value and its ids. */
    method InstallRow(k: Bytes, v: KeyVal, ids: seq<Bytes>, ghost o: seq<OrdEntry>, ghost km: KeyMap, ghost i: nat)
      returns (ok: bool)
      requires if def.uniq then entries == map[] else unique == map[]
      modifies this`entries, this`unique, this`ord
      ensures if def.uniq then entries == map[] else unique == map[]
      ensures Trusted(o, km, i) && old(LoadedTo(o, km, i)) && RowSays(IdxRow(k, v, ids), o[i], km)
              ==> ok && LoadedTo(o, km, i + 1)
      ensures !ok <==> def.uniq && |ids| > 1
    {
      hide KeysOf, UniqueMap;
      ghost var good := Trusted(o, km, i) && LoadedTo(o, km, i) && RowSays(IdxRow(k, v, ids), o[i], km);
      if good { GoodRow(k, ids, o, km, i, v); }
      ghost var m := Keys();
      if def.uniq {
        if |ids| > 1 { return false; }
        if |ids| == 1 {
          UniqueInsert(unique, k, ids[0]);
          unique := unique[k := ids[0]];
          ord := ord + [OrdEntry(v, k)];
        }
      } else if |ids| > 0 {
        entries := entries[k := set id | id in ids];
        ord := ord + [OrdEntry(v, k)];
      }
      ok := true;
      assert good ==> Keys() == m[k := km[k]];
    }

    ghost predicate Trusted(o: seq<OrdEntry>, km: KeyMap, i: nat)
    {
      i < |o| && NoEmpty(km) && (def.uniq ==> OneOwner(km)) && DistinctKeys(o) && KeysOf(o) == km.Keys
    }

    /** The first i entries are in. */
    ghost predicate LoadedTo(o: seq<OrdEntry>, km: KeyMap, i: nat)
      reads this`ord, this`entries, this`unique
    {
      i <= |o| && ord == o[..i] && Keys() == Restrict(km, KeysOf(o[..i]))
    }

    lemma GoodRow(k: Bytes, ids: seq<Bytes>, o: seq<OrdEntry>, km: KeyMap, i: nat, v: KeyVal)
      requires Trusted(o, km, i) && LoadedTo(o, km, i) && RowSays(IdxRow(k, v, ids), o[i], km)
      ensures k in km && (set id | id in ids) == km[k] && ids != [] && o[i] == OrdEntry(v, k)
      ensures def.uniq ==> |ids| == 1 && km[k] == {ids[0]}
      ensures o[..i + 1] == o[..i] + [OrdEntry(v, k)]
      ensures Restrict(km, KeysOf(o[..i + 1])) == Keys()[k := km[k]]
    {
      assert o[i].key in KeysOf(o);
      NextKeyIsNew(o, i);
      hide KeysOf, UniqueMap, Less;
      assert (set id | id in ids) == km[k];
      if def.uniq {
        assert ids[0] in km[k];
        Singleton(km[k], ids[0]);
        assert forall j | 0 <= j < |ids| :: ids[j] in km[k];
        OneIdInRow(ids, ids[0]);
      }
      assert Restrict(km, KeysOf(o[..i + 1])) == Restrict(km, KeysOf(o[..i]))[k := km[k]];
    }

    /** Rebuild the index from a payload: from the matrix when it is accepted, from the
        rows when it is not. Whatever list and key map the trusted part says, the index
        holds them afterwards. */
    method LoadRows(p: Payload, ghost o: seq<OrdEntry>, ghost km: KeyMap) returns (ok: bool)
      requires TextsOk(tx)
      modifies this
      ensures (p.fields != def.fields || p.uniq != def.uniq) ==> !ok && unchanged(this)
      ensures p.fields == def.fields && p.uniq == def.uniq && Storable(tx, def, o, km) && Says(p, crc, o, km)
              ==> ok && Valid() && Keys() == km && ord == o && !ordDirty
                  && (p.csr.Some? && Accepted(p.csr.value, crc) ==> matrix == p.csr)
      // refused exactly when the trusted part gives a unique key two owners
      ensures p.fields == def.fields && p.uniq == def.uniq ==> (!ok <==> p.uniq && Crowded(p, crc))
    {
      hide TextsOk, OrdOk, Sorted, RowsSay, Mirrors, Accepted, Trusted, LoadedTo;
      if p.fields != def.fields || p.uniq != def.uniq { return false; }
      ghost var good := Storable(tx, def, o, km) && Says(p, crc, o, km);
      var trust := false;
      if p.csr.Some? { trust := Check(p.csr.value, crc); }
      if trust {
        AcceptedIsSafe(p.csr.value, crc);
        ok := LoadCSR(p.csr.value, o, km);
        if good { LoadedAll(o, km); }
        return;
      }
      entries, unique, ord, ordDirty, matrix := map[], map[], [], false, None;
      if good { LoadedNone(o, km); }
      for i := 0 to |p.rows|
        invariant if def.uniq then entries == map[] else unique == map[]
        invariant good ==> LoadedTo(o, km, i)
        invariant !ordDirty && matrix == None
        invariant def.uniq ==> forall j | 0 <= j < i :: |p.rows[j].ids| <= 1
      {
        if good { RowAt(p.rows, o, km, i); }
        var fine := InstallRow(p.rows[i].k, p.rows[i].v, p.rows[i].ids, o, km, i);
        if !fine { return false; }
      }
      if good {
        RowsSayLength(p.rows, o, km);
        LoadedAll(o, km);
      }
      return true;
    }

    method LoadCSR(m: Matrix, ghost o: seq<OrdEntry>, ghost km: KeyMap) returns (ok: bool)
      requires Safe(m.body)
      modifies this
      ensures if def.uniq then entries == map[] else unique == map[]
      ensures Storable(tx, def, o, km) && Mirrors(m.body, o, km)
              ==> ok && LoadedTo(o, km, |o|) && !ordDirty && matrix == Some(m)
      ensures ok ==> matrix.Some? && Safe(matrix.value.body)
      ensures !ok <==> def.uniq && CrowdedMatrix(m.body)
    {
      hide TextsOk, OrdOk, Sorted, RowMirrors, Trusted, LoadedTo, Cells, Owners;
      ghost var good := Storable(tx, def, o, km) && Mirrors(m.body, o, km);
      entries, unique, ord, ordDirty := map[], map[], [], false;
      if good { LoadedNone(o, km); }
      var b := m.body;
      for i := 0 to |b.keys|
        invariant if def.uniq then entries == map[] else unique == map[]
        invariant good ==> LoadedTo(o, km, i)
        invariant !ordDirty
        invariant def.uniq ==> forall j | 0 <= j < i :: b.indptr[j + 1] - b.indptr[j] <= 1
      {
        assert RowSpan(b, i);
        var ids := ReadCells(b, b.indptr[i], b.indptr[i + 1]);
        if good { MirrorAt(b, o, km, i); }
        var fine := InstallRow(b.keys[i], b.vals[i], ids, o, km, i);
        if !fine { return false; }
      }
      if good { LoadedLength(o, km, |b.keys|); }
      var aligned := AlignToOrd(m, ord, crc);
      matrix := Some(aligned);
      return true;
    }

    lemma LoadedNone(o: seq<OrdEntry>, km: KeyMap)
      requires Storable(tx, def, o, km) && entries == map[] && unique == map[] && ord == []
      ensures LoadedTo(o, km, 0) && forall i | 0 <= i < |o| :: Trusted(o, km, i)
    {
      assert o[..0] == [] && KeysOf(o[..0]) == {};
    }

    lemma LoadedLength(o: seq<OrdEntry>, km: KeyMap, i: nat)
      requires LoadedTo(o, km, i)
      ensures |ord| == i
    {
    }

    lemma LoadedAll(o: seq<OrdEntry>, km: KeyMap)
      requires TextsOk(tx) && Storable(tx, def, o, km) && LoadedTo(o, km, |o|) && !ordDirty
      requires if def.uniq then entries == map[] else unique == map[]
      requires matrix.Some? ==> Mirrors(matrix.value.body, o, km)
      ensures Valid() && Keys() == km && ord == o
    {
      hide TextsOk, AllOk, Sorted, Mirrors;
      assert o[..|o|] == o;
      assert Restrict(km, KeysOf(o)) == km;
    }

    lemma KeysHaveOwners()
      requires Valid()
      ensures NoEmpty(Keys()) && (def.uniq ==> OneOwner(Keys()))
    {
    }
  }

  // ---------------------------------------------------------------- edges of a search

  /** Where the binary searches of a prefix seek turn. */
  predicate AtLeast(v: KeyVal, rank: nat, target: KeyVal)
  {
    if Rank(v) != rank then Rank(v) > rank else Compare(v, target) >= 0
  }

  predicate Above(v: KeyVal, rank: nat, target: KeyVal)
  {
    if Rank(v) != rank then Rank(v) > rank else Compare(v, target) > 0
  }

  /** Where those of a range seek turn. */
  predicate PastLo(v: KeyVal, rank: int, rb: RangeBound)
  {
    if Rank(v) != rank then Rank(v) > rank
    else if !rb.hasLo then true
    else if rb.loIncl then Compare(v, rb.lo) >= 0 else Compare(v, rb.lo) > 0
  }

  predicate PastHi(v: KeyVal, rank: int, rb: RangeBound)
  {
    if Rank(v) != rank then Rank(v) > rank
    else if !rb.hasHi then false
    else if rb.hiIncl then Compare(v, rb.hi) > 0 else Compare(v, rb.hi) >= 0
  }

  lemma EdgesClimb(s: seq<OrdEntry>, rank: nat, target: KeyVal)
    requires Sorted(s)
    ensures forall i, j | 0 <= i < j < |s| :: AtLeast(s[i].val, rank, target) ==> AtLeast(s[j].val, rank, target)
    ensures forall i, j | 0 <= i < j < |s| :: Above(s[i].val, rank, target) ==> Above(s[j].val, rank, target)
  {
    hide Sorted, Compare;
    forall i, j | 0 <= i < j < |s|
      ensures AtLeast(s[i].val, rank, target) ==> AtLeast(s[j].val, rank, target)
      ensures Above(s[i].val, rank, target) ==> Above(s[j].val, rank, target)
    {
      CompareClimbs(s, target, i, j);
    }
  }

  lemma RangeEdgesClimb(s: seq<OrdEntry>, rank: int, rb: RangeBound)
    requires Sorted(s)
    ensures forall i, j | 0 <= i < j < |s| :: PastLo(s[i].val, rank, rb) ==> PastLo(s[j].val, rank, rb)
    ensures forall i, j | 0 <= i < j < |s| :: PastHi(s[i].val, rank, rb) ==> PastHi(s[j].val, rank, rb)
    ensures forall i, j | 0 <= i < j < |s| :: Rank(s[i].val) <= Rank(s[j].val)
  {
    hide Sorted, Compare;
    forall i, j | 0 <= i < j < |s|
      ensures PastLo(s[i].val, rank, rb) ==> PastLo(s[j].val, rank, rb)
      ensures PastHi(s[i].val, rank, rb) ==> PastHi(s[j].val, rank, rb)
      ensures Rank(s[i].val) <= Rank(s[j].val)
    {
      CompareClimbs(s, rb.lo, i, j);
      CompareClimbs(s, rb.hi, i, j);
    }
  }

  lemma SearchFound(s: seq<OrdEntry>, rank: nat, target: KeyVal, start: nat, end: nat)
    requires start <= |s| && end <= |s| && rank == Rank(target)
    requires forall i | 0 <= i < |s| :: AtLeast(s[i].val, rank, target) <==> start <= i
    requires forall i | 0 <= i < |s| :: Above(s[i].val, rank, target) <==> end <= i
    ensures start <= end
    ensures forall i: nat | i < |s| && Compare(s[i].val, target) == 0 :: start <= i < end
  {
    assert end < |s| ==> (Above(s[end].val, rank, target) ==> AtLeast(s[end].val, rank, target));
    forall i: nat | i < |s| && Compare(s[i].val, target) == 0
      ensures start <= i < end
    {
      assert AtLeast(s[i].val, rank, target) && !Above(s[i].val, rank, target);
    }
  }

  /** Search over the values of a list. */
  method SearchVals(s: seq<OrdEntry>, f: KeyVal -> bool) returns (r: nat)
    requires forall i, j | 0 <= i < j < |s| :: f(s[i].val) ==> f(s[j].val)
    ensures r <= |s| && forall i | 0 <= i < |s| :: f(s[i].val) <==> r <= i
  {
    var at := (i: nat) requires i < |s| => f(s[i].val);
    r := Search(|s|, at);
    forall i: nat | i < |s|
      ensures f(s[i].val) <==> r <= i
    {
      assert at(i) <==> r <= i;
    }
  }

  lemma NothingInRange(s: seq<OrdEntry>, rb: RangeBound)
    requires rb.hasLo && rb.hasHi ==> Rank(rb.lo) != Rank(rb.hi) || Rank(rb.lo) in {0, 3, 4}
    requires rb.hasLo && !rb.hasHi ==> Rank(rb.lo) in {0, 3, 4}
    requires rb.hasHi && !rb.hasLo ==> Rank(rb.hi) in {0, 3, 4}
    ensures Select(s, rb) == []
  {
    hide Compare;
    SelectIsSlice(s, rb, |s|, 0, 0);
    assert s[..|s|] == s;
  }

  lemma EdgesAreTheRange(s: seq<OrdEntry>, rank: int, rb: RangeBound, start: nat, end: nat)
    requires (rank == 1 || rank == 2) && (rb.hasLo || rb.hasHi)
    requires (rb.hasLo ==> Rank(rb.lo) == rank) && (rb.hasHi ==> Rank(rb.hi) == rank)
    requires start <= |s| && end <= |s|
    requires forall i | 0 <= i < |s| :: PastLo(s[i].val, rank, rb) <==> start <= i
    requires forall i | 0 <= i < |s| :: PastHi(s[i].val, rank, rb) <==> end <= i
    ensures Select(s, rb) == if start <= end then s[start..end] else []
  {
    forall i | 0 <= i < |s|
      ensures InRange(s[i].val, rb) <==> start <= i < end
    {
      assert PastLo(s[i].val, rank, rb) <==> start <= i;
      assert PastHi(s[i].val, rank, rb) <==> end <= i;
    }
    SelectIsSlice(s, rb, |s|, start, end);
    assert s[..|s|] == s;
  }

  // ---------------------------------------------------------------- gathering

  lemma PrefixStep(km: KeyMap, todo: set<Bytes>, k: Bytes, prefix: Bytes)
    requires todo <= km.Keys && k in todo
    ensures PrefixIds(km - (todo - {k}), prefix)
            == PrefixIds(km - todo, prefix) + if prefix <= k then km[k] else {}
  {
    var a, b := km - todo, km - (todo - {k});
    assert b.Keys == a.Keys + {k};
    forall id: Bytes
      ensures id in PrefixIds(b, prefix) <==> id in PrefixIds(a, prefix) + if prefix <= k then km[k] else {}
    {
      if id in PrefixIds(b, prefix) {
        var x :| x in b && prefix <= x && id in b[x];
        if x != k { assert x in a && id in a[x]; }
      }
      if id in PrefixIds(a, prefix) {
        var x :| x in a && prefix <= x && id in a[x];
        assert x in b && id in b[x];
      }
      if prefix <= k && id in km[k] { assert k in b && id in b[k]; }
    }
  }

  /** The owners of the listed keys that start with a text. */
  function Gather(ents: seq<OrdEntry>, km: KeyMap, prefix: Bytes): set<Bytes>
  {
    if ents == [] then {}
    else
      var last := ents[|ents| - 1];
      Gather(ents[..|ents| - 1], km, prefix) + if prefix <= last.key then Owners(km, last.key) else {}
  }

  lemma GatherStep(s: seq<OrdEntry>, start: nat, i: nat, km: KeyMap, prefix: Bytes)
    requires start <= i < |s|
    ensures Gather(s[start..i + 1], km, prefix)
            == Gather(s[start..i], km, prefix) + if prefix <= s[i].key then Owners(km, s[i].key) else {}
  {
    var a := s[start..i + 1];
    assert a[..|a| - 1] == s[start..i] && a[|a| - 1] == s[i];
  }

  lemma {:induction false} GatherMembers(ents: seq<OrdEntry>, km: KeyMap, prefix: Bytes, id: Bytes)
    ensures id in Gather(ents, km, prefix)
            <==> exists j | 0 <= j < |ents| :: prefix <= ents[j].key && id in Owners(km, ents[j].key)
  {
    hide Owners;
    if ents != [] {
      var n := |ents| - 1;
      GatherMembers(ents[..n], km, prefix, id);
      if j :| 0 <= j < |ents| && prefix <= ents[j].key && id in Owners(km, ents[j].key) {
        if j < n { assert ents[..n][j] == ents[j]; }
      }
      if j :| 0 <= j < n && prefix <= ents[..n][j].key && id in Owners(km, ents[..n][j].key) {
        assert ents[..n][j] == ents[j];
      }
    }
  }

  lemma KeyUnderPrefix(tx: Texts, n: nat, e: OrdEntry, values: Row)
    requires TextsOk(tx) && EntryOk(tx, n, e) && RowOk(values) && values != []
    requires EncodeKey(tx.num, values) + [SEP] <= e.key
    ensures e.val == values[0]
  {
    hide EncodeKey;
    var row :| EntryOf(tx, n, e, row);
    PrefixExact(tx.num, values, row);
  }

  /** The band the searches cut out holds every key with the prefix. */
  lemma GatherIsPrefix(tx: Texts, n: nat, s: seq<OrdEntry>, km: KeyMap, values: Row, start: nat, end: nat)
    requires TextsOk(tx) && OrdOk(tx, n, s, km.Keys) && RowOk(values) && values != []
    requires start <= end <= |s|
    requires forall i: nat | i < |s| && Compare(s[i].val, values[0]) == 0 :: start <= i < end
    ensures Gather(s[start..end], km, EncodeKey(tx.num, values) + [SEP])
            == PrefixIds(km, EncodeKey(tx.num, values) + [SEP])
  {
    hide EncodeKey, EntryOk, Gather, Compare, TextsOk;
    var prefix := EncodeKey(tx.num, values) + [SEP];
    var band := s[start..end];
    CompareLaws(values[0], values[0], values[0]);
    forall id: Bytes
      ensures id in Gather(band, km, prefix) <==> id in PrefixIds(km, prefix)
    {
      GatherMembers(band, km, prefix, id);
      if j :| 0 <= j < |band| && prefix <= band[j].key && id in Owners(km, band[j].key) {
        assert band[j].key in km && id in km[band[j].key];
      }
      if id in PrefixIds(km, prefix) {
        var k :| k in km && prefix <= k && id in km[k];
        var at := AtKey(s, k);
        KeyUnderPrefix(tx, n, s[at], values);
        assert band[at - start] == s[at];
      }
    }
  }

  lemma FlattenStep(ord: seq<OrdEntry>, start: nat, i: nat, km: KeyMap)
    requires start <= i < |ord|
    ensures Flatten(ord[start..i + 1], km) == Flatten(ord[start..i], km) + SortedIds(Owners(km, ord[i].key))
  {
    hide Owners;
    var a := ord[start..i + 1];
    assert a[..|a| - 1] == ord[start..i] && a[|a| - 1] == ord[i];
  }

  method ReadCells(b: Body, lo: int, hi: int) returns (out: seq<Bytes>)
    requires ColumnsIn(b) && 0 <= lo <= hi <= |b.indices|
    ensures out == Cells(b)[lo..hi]
  {
    out := [];
    for j := lo to hi
      invariant out == Cells(b)[lo..j]
    {
      out := out + [b.ids[b.indices[j]]];
    }
  }

  method RangeFromMatrix(b: Body, ghost ord: seq<OrdEntry>, ghost km: KeyMap, start: nat, end: nat)
    returns (out: seq<Bytes>)
    requires Mirrors(b, ord, km) && start <= end <= |ord|
    ensures out == Flatten(ord[start..end], km)
  {
    hide RowMirrors, Cells, Owners;
    out := [];
    CellsAreFlat(b, ord, km, start, end);
    for i := start to end
      invariant 0 <= b.indptr[start] <= b.indptr[i] <= |b.indices|
      invariant out == Cells(b)[b.indptr[start]..b.indptr[i]]
    {
      assert RowSpan(b, i);
      var row := ReadCells(b, b.indptr[i], b.indptr[i + 1]);
      out := out + row;
    }
  }

  // ---------------------------------------------------------------- persistence

  function Restrict(km: KeyMap, ks: set<Bytes>): KeyMap { map k | k in km && k in ks :: km[k] }

  lemma OneIdInRow(ids: seq<Bytes>, x: Bytes)
    requires Ascending(ids) && ids != [] && forall j | 0 <= j < |ids| :: ids[j] == x
    ensures |ids| == 1
  {
    LessIrreflexive(x);
    var first, last := ids[0], ids[|ids| - 1];
    assert |ids| > 1 ==> Less(first, last);
  }

  lemma UniqueInsert(u: map<Bytes, Bytes>, k: Bytes, id: Bytes)
    ensures UniqueMap(u[k := id]) == UniqueMap(u)[k := {id}]
  {
  }

  lemma NoColumns()
    ensures ColumnsOk(map[], [])
  {
  }

  lemma EmptyMirrors(ord: seq<OrdEntry>, km: KeyMap)
    ensures Mirrors(EmptyBody(), ord[..0], km) && RowsSay([], ord[..0], km)
  {
  }

  lemma RowsSayMore(rows: seq<IdxRow>, ord: seq<OrdEntry>, i: nat, km: KeyMap, r: IdxRow)
    requires i < |ord| && RowsSay(rows, ord[..i], km) && RowSays(r, ord[i], km)
    ensures RowsSay(rows + [r], ord[..i + 1], km)
  {
    hide RowSays;
    var more := rows + [r];
    forall j | 0 <= j < |more|
      ensures RowSays(more[j], ord[..i + 1][j], km)
    {
      if j < i { assert RowSays(rows[j], ord[..i][j], km); }
    }
  }

  lemma RowAt(rows: seq<IdxRow>, o: seq<OrdEntry>, km: KeyMap, i: nat)
    requires RowsSay(rows, o, km) && i < |rows|
    ensures i < |o| && RowSays(IdxRow(rows[i].k, rows[i].v, rows[i].ids), o[i], km)
  {
    hide RowSays;
    assert RowSays(rows[i], o[i], km);
  }

  lemma RowsSayLength(rows: seq<IdxRow>, o: seq<OrdEntry>, km: KeyMap)
    requires RowsSay(rows, o, km)
    ensures |rows| == |o|
  {
  }

  lemma MirrorAt(b: Body, o: seq<OrdEntry>, km: KeyMap, i: nat)
    requires Mirrors(b, o, km) && i < |b.keys|
    ensures i < |o| && RowSpan(b, i)
    ensures RowSays(IdxRow(b.keys[i], b.vals[i], Cells(b)[b.indptr[i]..b.indptr[i + 1]]), o[i], km)
  {
    assert RowMirrors(b, o, km, i);
  }

  /** Row i of the realigned matrix is some row of the original, under the same key. */
  ghost predicate RowKept(out: Body, b: Body, i: nat)
    requires Safe(out) && Safe(b)
  {
    i < |out.keys| && RowSpan(out, i)
    && exists j | 0 <= j < |b.keys| ::
         RowSpan(b, j) && out.keys[i] == b.keys[j] && out.vals[i] == b.vals[j] && RowIds(out, i) == RowIds(b, j)
  }

  /** Drop the rows whose keys the loaded list skipped; the matrix itself when none was. */
  method AlignToOrd(m: Matrix, ord: seq<OrdEntry>, crc: Body -> int) returns (r: Matrix)
    requires Safe(m.body)
    ensures |ord| == |m.body.keys| ==> r == m
    ensures Safe(r.body) && (|ord| != |m.body.keys| ==> forall i | 0 <= i < |r.body.keys| :: RowKept(r.body, m.body, i))
  {
    hide RowKept, Safe;
    if |ord| == |m.body.keys| { return m; }
    var b := m.body;
    SafeFacts(b);
    var keep: map<Bytes, nat> := map[];
    for i := 0 to |b.keys|
      invariant forall k <- keep :: keep[k] < |b.keys| && b.keys[keep[k]] == k
    {
      keep := keep[b.keys[i] := i];
    }
    var out := Body([], [], [0], [], b.ids);
    NothingKept(b);
    for n := 0 to |ord|
      invariant Safe(out) && out.ids == b.ids
      invariant forall i | 0 <= i < |out.keys| :: RowKept(out, b, i)
    {
      var k := ord[n].key;
      if k !in keep { continue; }
      var j := keep[k];
      assert RowSpan(b, j);
      var cols := b.indices[b.indptr[j]..b.indptr[j + 1]];
      KeepRow(out, b, j, cols);
      out := WithRow(out, OrdEntry(b.vals[j], b.keys[j]), cols, b.ids);
    }
    r := Matrix(out, crc(out));
  }

  lemma SafeFacts(b: Body)
    requires Safe(b)
    ensures |b.vals| == |b.keys| && forall i | 0 <= i < |b.keys| :: RowSpan(b, i)
  {
  }

  lemma NothingKept(b: Body)
    ensures Safe(Body([], [], [0], [], b.ids))
  {
  }

  lemma KeepRow(out: Body, b: Body, j: nat, cols: seq<int>)
    requires Safe(out) && Safe(b) && out.ids == b.ids && j < |b.keys| && RowSpan(b, j)
    requires cols == b.indices[b.indptr[j]..b.indptr[j + 1]]
    requires forall i | 0 <= i < |out.keys| :: RowKept(out, b, i)
    ensures Safe(WithRow(out, OrdEntry(b.vals[j], b.keys[j]), cols, b.ids))
    ensures var c := WithRow(out, OrdEntry(b.vals[j], b.keys[j]), cols, b.ids);
            forall i | 0 <= i < |c.keys| :: RowKept(c, b, i)
  {
    var c := WithRow(out, OrdEntry(b.vals[j], b.keys[j]), cols, b.ids);
    var row := RowIds(b, j);
    assert Names(cols, b.ids, row);
    WithRowCells(out, OrdEntry(b.vals[j], b.keys[j]), cols, b.ids, row);
    hide Cells;
    forall i | 0 <= i < |c.keys|
      ensures RowSpan(c, i)
    {
      if i < |out.keys| { assert RowSpan(out, i); }
    }
    forall i | 0 <= i < |c.keys|
      ensures RowKept(c, b, i)
    {
      if i < |out.keys| {
        assert RowKept(out, b, i);
        assert RowIds(c, i) == RowIds(out, i);
      } else {
        assert RowIds(c, i) == row;
      }
    }
  }

  // ---------------------------------------------------------------- steps of the loops

  function SetOf(s: seq<Bytes>): set<Bytes> { set x | x in s }

  lemma SameKeys(tx: Texts, n: nat, ord: seq<OrdEntry>, keys: set<Bytes>)
    requires OrdOk(tx, n, ord, keys)
    ensures KeysOf(ord) == keys
  {
  }

  function UniqueMap(u: map<Bytes, Bytes>): KeyMap { map k | k in u :: {u[k]} }

  lemma UniqueKeys(u: map<Bytes, Bytes>)
    ensures UniqueMap(u).Keys == u.Keys && NoEmpty(UniqueMap(u)) && OneOwner(UniqueMap(u))
    ensures forall k <- u :: UniqueMap(u)[k] == {u[k]}
  {
  }

  lemma OneAdded(m: KeyMap, k: Bytes, id: Bytes)
    ensures AddKeys(m, {k}, id) == m[k := (if k in m then m[k] else {}) + {id}]
  {
    assert {} + {id} == {id};
  }

  lemma OneUniqueAdded(u: map<Bytes, Bytes>, k: Bytes, id: Bytes)
    requires !Conflict(UniqueMap(u), {k}, id)
    ensures UniqueMap(u[k := id]) == AddKeys(UniqueMap(u), {k}, id)
    ensures UniqueMap(u[k := id]).Keys == u.Keys + {k}
  {
    if k in u {
      assert UniqueMap(u)[k] == {u[k]};
      assert u[k] in {id};
      assert {id} + {id} == {id};
    }
  }

  lemma OneRemoved(m: KeyMap, k: Bytes, id: Bytes)
    requires NoEmpty(m)
    ensures RemoveKeys(m, {k}, id)
            == if k !in m then m else if m[k] - {id} == {} then m - {k} else m[k := m[k] - {id}]
  {
    if k in m { assert m[k] <= {id} <==> m[k] - {id} == {}; }
  }

  lemma OneUniqueRemoved(u: map<Bytes, Bytes>, k: Bytes, id: Bytes)
    ensures RemoveKeys(UniqueMap(u), {k}, id) == UniqueMap(if k in u && u[k] == id then u - {k} else u)
    ensures UniqueMap(u - {k}).Keys == u.Keys - {k}
  {
    if k in u && u[k] != id {
      assert u[k] in {u[k]};
      assert {u[k]} - {id} == {u[k]};
    }
  }

  /** The keys kept so far, with their first values: each distinct key seen, once. */
  ghost predicate Staged(tx: Texts, n: nat, keys: seq<Bytes>, vals: seq<KeyVal>, seen: set<Bytes>)
  {
    && |keys| == |vals| && SetOf(keys) == seen
    && forall j | 0 <= j < |keys| :: EntryOk(tx, n, OrdEntry(vals[j], keys[j]))
  }

  lemma StageOne(tx: Texts, n: nat, keys: seq<Bytes>, vals: seq<KeyVal>, seen: set<Bytes>, k: Bytes, v: KeyVal)
    requires Staged(tx, n, keys, vals, seen) && EntryOk(tx, n, OrdEntry(v, k))
    ensures Staged(tx, n, keys + [k], vals + [v], seen + {k})
  {
    hide EntryOk;
  }

  lemma StagedAt(tx: Texts, n: nat, keys: seq<Bytes>, vals: seq<KeyVal>, seen: set<Bytes>, i: nat)
    requires Staged(tx, n, keys, vals, seen) && i < |keys|
    ensures EntryOk(tx, n, OrdEntry(vals[i], keys[i]))
    ensures SetOf(keys[..i + 1]) == SetOf(keys[..i]) + {keys[i]}
  {
    hide EntryOk;
    assert keys[..i + 1] == keys[..i] + [keys[i]];
  }

  lemma NextRow(tx: Texts, rows: seq<Row>, i: nat)
    requires i < |rows|
    ensures RowKeys(tx, rows[..i + 1]) == RowKeys(tx, rows[..i]) + {EncodeKey(tx.num, rows[i])}
  {
    hide EncodeKey;
    assert rows[..i + 1] == rows[..i] + [rows[i]];
    assert rows[i] in rows[..i + 1];
  }

  lemma RowsGrow(tx: Texts, rows: seq<Row>, i: nat)
    requires i <= |rows|
    ensures RowKeys(tx, rows[..i]) <= RowKeys(tx, rows)
  {
    hide EncodeKey;
    assert rows == rows[..i] + rows[i..];
  }

  lemma RowEntry(tx: Texts, doc: Doc, fields: seq<Bytes>, row: Row)
    requires TextsOk(tx) && row in Rows(tx, doc, fields)
    ensures EntryOk(tx, |fields|, OrdEntry(First(row), EncodeKey(tx.num, row)))
  {
    hide Rows, EncodeKey;
    RowsOk(tx, doc, fields, row);
    assert EntryOf(tx, |fields|, OrdEntry(First(row), EncodeKey(tx.num, row)), row);
  }

  lemma NoNewConflict(km: KeyMap, seen: set<Bytes>, k: Bytes, id: Bytes, uniq: bool, unique: map<Bytes, Bytes>)
    requires uniq ==> km == UniqueMap(unique) && !Conflict(km, seen, id)
    requires uniq && k in unique ==> unique[k] == id
    ensures uniq ==> !Conflict(km, seen + {k}, id)
  {
  }

  lemma AddNothing(km: KeyMap, id: Bytes)
    ensures AddKeys(km, SetOf([]), id) == km
  {
    assert SetOf([]) == {};
  }

  lemma RemoveNothing(km: KeyMap, id: Bytes)
    ensures RemoveKeys(km, {}, id) == km
  {
  }

  lemma ConflictFree(km: KeyMap, keys: seq<Bytes>, i: nat, id: Bytes)
    requires i < |keys|
    ensures !Conflict(km, SetOf(keys[i..]), id) ==> !Conflict(km, {keys[i]}, id)
  {
    assert keys[i..][0] == keys[i];
    assert keys[i] in SetOf(keys[i..]);
  }

  lemma StillConflictFree(km: KeyMap, ks: set<Bytes>, k: Bytes, rest: set<Bytes>, id: Bytes)
    requires k in ks
    ensures !Conflict(km, ks, id) && rest <= ks ==> !Conflict(AddKeys(km, {k}, id), rest, id)
  {
  }

  // ---------------------------------------------------------------- round trip

  /** Persist an index and load it into a fresh one of the same definition, with the
      matrix as written or with one that is missing or fails its check: the same key
      map and the same ordered list come back. */
  method PersistAndLoad(idx: Index, damaged: bool, junk: Option<Matrix>) returns (fresh': Index)
    requires idx.Valid() && (junk.Some? ==> !Accepted(junk.value, idx.crc))
    modifies idx
    ensures idx.Valid() && idx.Keys() == old(idx.Keys())
    ensures fresh(fresh') && fresh'.Valid() && fresh'.def == idx.def
    ensures fresh'.Keys() == idx.Keys() && fresh'.ord == idx.ord && !fresh'.ordDirty
    ensures !damaged ==> fresh'.matrix.Some? && fresh'.matrix == idx.matrix
  {
    hide TextsOk, OrdOk, Sorted, RowsSay, Mirrors, Accepted;
    var p := idx.Serialize();
    fresh' := new Index(idx.tx, idx.crc, idx.def);
    if damaged { p := p.(csr := junk); }
    var ok := fresh'.LoadRows(p, idx.ord, idx.Keys());
  }
}
