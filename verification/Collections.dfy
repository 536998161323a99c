/** A collection: its documents and its indexes, kept in step by every mutation. */
module Collections {
  import opened ByteCodec
  import opened Values
  import opened SortedLists
  import opened Paths
  import opened IndexKeys
  import opened IndexRows
  import opened KeyMaps
  import opened Csr
  import opened Indexes

  datatype Outcome = Done | Duplicate | NotFound | TooLarge | BadFilter

  // ---------------------------------------------------------------- one index, one update

  /** The key map without the document that was there. */
  function Without(m: KeyMap, tx: Texts, fields: seq<Bytes>, was: Option<Doc>, id: Bytes): KeyMap
  {
    if was.Some? then RemoveKeys(m, KeySet(tx, was.value, fields), id) else m
  }

  /** A unique index refuses the document. */
  predicate Blocked(def: Def, m: KeyMap, tx: Texts, d: Doc, id: Bytes)
  {
    def.uniq && Conflict(m, KeySet(tx, d, def.fields), id)
  }

  function With(def: Def, m: KeyMap, tx: Texts, d: Doc, id: Bytes): KeyMap
  {
    if Blocked(def, m, tx, d, id) then m else AddKeys(m, KeySet(tx, d, def.fields), id)
  }

  /** Replacing the old document by the new one, in one index. */
  predicate Refuses(def: Def, m: KeyMap, tx: Texts, was: Option<Doc>, d: Doc, id: Bytes)
  {
    Blocked(def, Without(m, tx, def.fields, was, id), tx, d, id)
  }

  function Moved(def: Def, m: KeyMap, tx: Texts, was: Option<Doc>, d: Doc, id: Bytes): KeyMap
  {
    With(def, Without(m, tx, def.fields, was, id), tx, d, id)
  }

  predicate OwnsNothing(m: KeyMap, id: Bytes)
  {
    forall k <- m :: id !in m[k]
  }

  lemma WithoutFacts(m: KeyMap, tx: Texts, fields: seq<Bytes>, docs: Docs, id: Bytes)
    requires Reflects(m, tx, fields, docs)
    ensures var r := Without(m, tx, fields, Get(docs, id), id);
            Reflects(r, tx, fields, docs - {id}) && NoEmpty(r) && OwnsNothing(r, id)
  {
    hide KeySet;
    var r := Without(m, tx, fields, Get(docs, id), id);
    if id in docs { RemoveReflects(m, tx, fields, docs, id); } else { assert docs - {id} == docs; }
    forall k | k in r
      ensures id !in r[k]
    {
      assert k in r && id in r[k] <==> Produces(tx, fields, docs - {id}, k, id);
    }
  }

  /** Taking back what was added leaves the map as it was before the addition, whether
      or not the addition was refused. */
  lemma RollbackAdd(def: Def, m: KeyMap, tx: Texts, d: Doc, id: Bytes)
    requires NoEmpty(m) && OwnsNothing(m, id)
    ensures RemoveKeys(With(def, m, tx, d, id), KeySet(tx, d, def.fields), id) == m
  {
    hide KeySet, AddKeys, RemoveKeys;
    if Blocked(def, m, tx, d, id) {
      RemoveForeign(m, KeySet(tx, d, def.fields), id);
    } else {
      RemoveUndoesAdd(m, KeySet(tx, d, def.fields), id);
    }
  }

  /** Putting the old document back is never refused and restores the map. */
  lemma RollbackRemove(def: Def, m: KeyMap, tx: Texts, docs: Docs, id: Bytes)
    requires Reflects(m, tx, def.fields, docs) && id in docs && (def.uniq ==> OneOwner(m))
    ensures var r := Without(m, tx, def.fields, Get(docs, id), id);
            !Blocked(def, r, tx, docs[id], id) && With(def, r, tx, docs[id], id) == m
  {
    hide KeySet;
    var ks := KeySet(tx, docs[id], def.fields);
    forall k
      ensures k in ks <==> k in m && id in m[k]
    {
      assert k in m && id in m[k] <==> Produces(tx, def.fields, docs, k, id);
    }
    var r := RemoveKeys(m, ks, id);
    if def.uniq {
      forall k | k in ks
        ensures k !in r
      {
        Singleton(m[k], id);
      }
    }
    AddUndoesRemove(m, ks, id);
  }

  lemma WithReflects(def: Def, m: KeyMap, tx: Texts, docs: Docs, id: Bytes, d: Doc)
    requires Reflects(m, tx, def.fields, docs - {id}) && !Blocked(def, m, tx, d, id)
    ensures Reflects(With(def, m, tx, d, id), tx, def.fields, docs[id := d])
  {
    AddReflects(m, tx, def.fields, docs - {id}, id, d);
    assert (docs - {id})[id := d] == docs[id := d];
  }

  /** Two documents never share a key of a unique index. */
  lemma UniqueKeysHaveOneDocument(m: KeyMap, tx: Texts, fields: seq<Bytes>, docs: Docs, k: Bytes, a: Bytes, b: Bytes)
    requires Reflects(m, tx, fields, docs) && OneOwner(m)
    requires Produces(tx, fields, docs, k, a) && Produces(tx, fields, docs, k, b)
    ensures a == b
  {
    hide Produces;
    assert k in m && a in m[k] && b in m[k];
    Singleton(m[k], a);
  }

  /** Rows added without taking the old ones out, and taken out again when refused. */
  function UnreadMoved(def: Def, m: KeyMap, tx: Texts, d: Doc, id: Bytes, stored: bool): KeyMap
  {
    var added := With(def, m, tx, d, id);
    if stored then added else Without(added, tx, def.fields, Some(d), id)
  }

  // ---------------------------------------------------------------- the collection

  class Collection {
    const tx: Texts
    const crc: Body -> int
    const fits: Doc -> bool
    var docs: Docs
    var indexes: seq<Index>

    ghost predicate Apart()
      reads this
    {
      forall i, j | 0 <= i < j < |indexes| :: indexes[i] != indexes[j]
    }

    ghost predicate IndexOk(idx: Index)
      reads idx
    {
      idx.Valid() && idx.tx == tx && idx.crc == crc && idx.def.fields != []
    }

    /** Every index is sound in itself and reflects exactly the current documents. */
    ghost predicate Valid()
      reads this, indexes
    {
      && TextsOk(tx)
      && Apart()
      && (forall i, j | 0 <= i < j < |indexes| :: indexes[i].def.fields != indexes[j].def.fields)
      && (forall i | 0 <= i < |indexes| :: IndexOk(indexes[i]))
      && (forall i | 0 <= i < |indexes| :: Reflects(indexes[i].Keys(), tx, indexes[i].def.fields, docs))
    }

    constructor (tx: Texts, crc: Body -> int, fits: Doc -> bool)
      requires TextsOk(tx)
      ensures Valid() && docs == map[] && indexes == []
      ensures this.tx == tx && this.crc == crc && this.fits == fits
    {
      this.tx, this.crc, this.fits := tx, crc, fits;
      docs, indexes := map[], [];
    }

    /** Every index can be worked on, whatever it holds. */
    ghost predicate Ready()
      reads this, indexes
    {
      Apart() && forall i | 0 <= i < |indexes| :: IndexOk(indexes[i])
    }

    method RemoveOne(idx: Index, d: Doc, id: Bytes)
      requires IndexOk(idx)
      modifies idx
      ensures IndexOk(idx) && idx.Keys() == Without(old(idx.Keys()), tx, idx.def.fields, Some(d), id)
    {
      hide TextsOk, KeySet, RemoveKeys;
      idx.RemoveDoc(d, id);
    }

    method RemoveFromAll(d: Doc, id: Bytes)
      requires Ready()
      modifies indexes
      ensures Ready()
      ensures forall i | 0 <= i < |indexes| ::
        indexes[i].Keys() == Without(old(indexes[i].Keys()), tx, indexes[i].def.fields, Some(d), id)
    {
      hide IndexOk, Without;
      for i := 0 to |indexes|
        invariant Ready()
        invariant forall j | i <= j < |indexes| :: indexes[j].Keys() == old(indexes[j].Keys())
        invariant forall j | 0 <= j < i ::
          indexes[j].Keys() == Without(old(indexes[j].Keys()), tx, indexes[j].def.fields, Some(d), id)
      {
        RemoveOne(indexes[i], d, id);
      }
    }

    method AddOne(idx: Index, d: Doc, id: Bytes) returns (ok: bool)
      requires IndexOk(idx)
      modifies idx
      ensures IndexOk(idx) && ok == !Blocked(idx.def, old(idx.Keys()), tx, d, id)
      ensures idx.Keys() == With(idx.def, old(idx.Keys()), tx, d, id)
    {
      hide TextsOk, KeySet, AddKeys, Conflict;
      ok := idx.AddDoc(d, id);
    }

    method AddToAll(d: Doc, id: Bytes) returns (ok: bool)
      requires Ready()
      modifies indexes
      ensures Ready()
      ensures ok <==> forall i | 0 <= i < |indexes| :: !Blocked(indexes[i].def, old(indexes[i].Keys()), tx, d, id)
      ensures forall i | 0 <= i < |indexes| ::
        indexes[i].Keys() == With(indexes[i].def, old(indexes[i].Keys()), tx, d, id)
    {
      hide IndexOk, With, Blocked;
      ok := true;
      for i := 0 to |indexes|
        invariant Ready()
        invariant forall j | i <= j < |indexes| :: indexes[j].Keys() == old(indexes[j].Keys())
        invariant forall j | 0 <= j < i ::
          indexes[j].Keys() == With(indexes[j].def, old(indexes[j].Keys()), tx, d, id)
        invariant ok <==> forall j | 0 <= j < i :: !Blocked(indexes[j].def, old(indexes[j].Keys()), tx, d, id)
      {
        var fine := AddOne(indexes[i], d, id);
        ok := ok && fine;
      }
    }

    /** Move every index from the document that was there to the new one, or put all of
        them back when a unique index refuses it. */
    method ApplyIndexes(was: Option<Doc>, newDoc: Doc, id: Bytes) returns (ok: bool)
      requires Valid() && was == Get(docs, id)
      modifies indexes
      ensures Ready()
      ensures ok <==> forall i | 0 <= i < |indexes| ::
                !Refuses(indexes[i].def, old(indexes[i].Keys()), tx, was, newDoc, id)
      ensures !ok ==> forall i | 0 <= i < |indexes| :: indexes[i].Keys() == old(indexes[i].Keys())
      ensures ok ==> forall i | 0 <= i < |indexes| ::
                indexes[i].Keys() == Moved(indexes[i].def, old(indexes[i].Keys()), tx, was, newDoc, id)
    {
      hide TextsOk, KeySet, AddKeys, RemoveKeys, Reflects, Conflict, Blocked, With, IndexOk;
      forall i | 0 <= i < |indexes|
        ensures RollsBack(indexes[i].def, indexes[i].Keys(), tx, was, newDoc, id)
      {
        assert IndexOk(indexes[i]);
        IndexFacts(indexes[i]);
        Rollback(indexes[i].def, indexes[i].Keys(), tx, docs, newDoc, id);
      }
      if was.Some? { RemoveFromAll(was.value, id); }
      label Removed:
      ok := AddToAll(newDoc, id);
      if ok { return; }
      RemoveFromAll(newDoc, id);
      if was.Some? {
        label RolledBack:
        var fine := AddToAll(was.value, id);
      }
    }

    // -------------------------------------------------------------- mutations

    /** Some unique index would put the document beside another one. */
    ghost predicate Refused(d: Doc, id: Bytes)
      reads this
    {
      exists i | 0 <= i < |indexes| :: Clashes(indexes[i].def, tx, docs, d, id)
    }

    /** Replace or create one document: the common part of insert, upsert and update. */
    method Store(d: Doc, id: Bytes) returns (ok: bool)
      requires Valid()
      modifies this`docs, indexes
      ensures Valid() && ok == !old(Refused(d, id))
      ensures docs == if ok then old(docs)[id := d] else old(docs)
    {
      hide TextsOk, IndexOk, Reflects, Blocked, With, Without, Clashes;
      forall i | 0 <= i < |indexes|
        ensures Settles(indexes[i].def, indexes[i].Keys(), tx, docs, d, id)
      {
        Settling(indexes[i].def, indexes[i].Keys(), tx, docs, d, id);
      }
      ok := ApplyIndexes(Get(docs, id), d, id);
      if ok { docs := docs[id := d]; }
    }

    method Insert(id: Bytes, d: Doc) returns (r: Outcome)
      requires Valid()
      modifies this`docs, indexes
      ensures Valid()
      ensures r == if id in old(docs) || old(Refused(d, id)) then Duplicate else Done
      ensures docs == if r == Done then old(docs)[id := d] else old(docs)
    {
      hide Clashes;
      if id in docs { return Duplicate; }
      var ok := Store(d, id);
      return if ok then Done else Duplicate;
    }

    /** The id given wins over the one in the document. */
    method Upsert(id: Bytes, d: Doc) returns (r: Outcome)
      requires Valid()
      modifies this`docs, indexes
      ensures Valid()
      ensures var stored := d[ID_FIELD := Str(id)];
              && r == (if old(Refused(stored, id)) then Duplicate else Done)
              && docs == if r == Done then old(docs)[id := stored] else old(docs)
    {
      hide Clashes;
      var stored := d[ID_FIELD := Str(id)];
      var ok := Store(stored, id);
      return if ok then Done else Duplicate;
    }

    ghost predicate BlockedNowhere(d: Doc, id: Bytes)
      reads this, indexes
    {
      forall i | 0 <= i < |indexes| :: !Blocked(indexes[i].def, indexes[i].Keys(), tx, d, id)
    }

    /** An upsert that cannot read the document it replaces goes on as if there were
        none: its rows stay behind, and a rollback takes rows it did not add. */
    method UpsertUnread(id: Bytes, d: Doc) returns (r: Outcome)
      requires Valid() && id in docs
      modifies this`docs, indexes
      ensures indexes == old(indexes) && Ready()
      ensures docs == if r == Done then old(docs)[id := d[ID_FIELD := Str(id)]] else old(docs)
      ensures r == if old(BlockedNowhere(d[ID_FIELD := Str(id)], id)) then Done else Duplicate
      ensures forall i | 0 <= i < |indexes| ::
                indexes[i].Keys() ==
                  UnreadMoved(indexes[i].def, old(indexes[i].Keys()), tx, d[ID_FIELD := Str(id)], id, r == Done)
      // sound exactly when the new document has all the old rows, or, refused, none of them
      ensures Valid() <==> forall i | 0 <= i < |indexes| ::
                RowsFit(indexes[i].def.fields, tx, old(docs)[id], d[ID_FIELD := Str(id)], r == Done)
    {
      hide TextsOk, IndexOk, KeySet, Reflects, Blocked, With, Without;
      var stored := d[ID_FIELD := Str(id)];
      forall i | 0 <= i < |indexes|
        ensures UnreadFits(indexes[i].def, indexes[i].Keys(), tx, docs, stored, id)
      {
        UnreadExact(indexes[i].def, indexes[i].Keys(), tx, docs, stored, id);
      }
      var ok := AddToAll(stored, id);
      if !ok {
        RemoveFromAll(stored, id);
        return Duplicate;
      }
      docs := docs[id := stored];
      return Done;
    }

    /** Merge top-level keys of patch, except the id, and then drop the removed ones. */
    method Update(id: Bytes, patch: Doc, remove: seq<Bytes>) returns (r: Outcome)
      requires Valid()
      modifies this`docs, indexes
      ensures Valid()
      ensures id !in old(docs) ==> r == NotFound
      ensures id in old(docs) ==>
                var next := Patched(old(docs)[id], patch, SetOf(remove));
                r == if !fits(next) then TooLarge else if old(Refused(next, id)) then Duplicate else Done
      ensures docs == if r == Done then old(docs)[id := Patched(old(docs)[id], patch, SetOf(remove))] else old(docs)
    {
      hide Clashes, Patched;
      if id !in docs { return NotFound; }
      var next := BuildPatched(docs[id], patch, remove);
      if !fits(next) { return TooLarge; }
      var ok := Store(next, id);
      return if ok then Done else Duplicate;
    }

    method Delete(id: Bytes) returns (r: Outcome)
      requires Valid()
      modifies this`docs, indexes
      ensures Valid() && r == (if id in old(docs) then Done else NotFound)
      ensures docs == old(docs) - {id}
    {
      hide TextsOk, KeySet, RemoveKeys, Reflects;
      if id !in docs { return NotFound; }
      forall i | 0 <= i < |indexes|
        ensures Reflects(Without(indexes[i].Keys(), tx, indexes[i].def.fields, Some(docs[id]), id),
                         tx, indexes[i].def.fields, docs - {id})
      {
        WithoutFacts(indexes[i].Keys(), tx, indexes[i].def.fields, docs, id);
      }
      RemoveFromAll(docs[id], id);
      docs := docs - {id};
      return Done;
    }

    // -------------------------------------------------------------- definitions

    predicate HasIndexOn(fields: seq<Bytes>)
      reads this
    {
      exists i | 0 <= i < |indexes| :: indexes[i].def.fields == fields
    }

    method FindIndex(fields: seq<Bytes>) returns (at: Option<nat>)
      ensures at == None ==> !HasIndexOn(fields)
      ensures at.Some? ==> at.value < |indexes| && indexes[at.value].def.fields == fields
    {
      for i := 0 to |indexes|
        invariant forall j | 0 <= j < i :: indexes[j].def.fields != fields
      {
        if indexes[i].def.fields == fields { return Some(i); }
      }
      return None;
    }

    /** Build an index over the documents there are, in id order. */
    method BuildIndex(def: Def) returns (idx: Index, ok: bool)
      requires Valid() && def.fields != []
      ensures fresh(idx) && IndexOk(idx) && idx.def == def
      ensures ok == !SharesKeys(def, tx, docs)
      ensures ok ==> Reflects(idx.Keys(), tx, def.fields, docs)
    {
      hide TextsOk, KeySet, Reflects, AddKeys, RemoveKeys, Clashes;
      idx := new Index(tx, crc, def);
      var ids := SortedMembers(docs.Keys);
      NothingReflects(tx, def.fields, docs);
      for i := 0 to |ids|
        invariant IndexOk(idx) && idx.def == def && fresh(idx)
        invariant Reflects(idx.Keys(), tx, def.fields, Only(docs, ids[..i]))
      {
        ghost var m, sub := idx.Keys(), Only(docs, ids[..i]);
        IndexFacts(idx);
        OnlyGrows(docs, ids, i);
        Settling(def, m, tx, sub, docs[ids[i]], ids[i]);
        var fine := idx.AddDoc(docs[ids[i]], ids[i]);
        if !fine {
          ClashIsShared(def, tx, docs, sub, ids[i]);
          return idx, false;
        }
      }
      OnlyAll(docs, ids);
      IndexFacts(idx);
      NothingShared(def, idx.Keys(), tx, docs);
      return idx, true;
    }

    method EnsureIndex(fields: seq<Bytes>, uniq: bool) returns (r: Outcome)
      requires Valid()
      modifies this`indexes
      ensures Valid() && docs == old(docs)
      ensures fields == [] ==> r == BadFilter
      ensures fields != [] && !old(HasIndexOn(fields)) ==>
                r == if SharesKeys(Def(fields, uniq), tx, docs) then Duplicate else Done
      // an index on these fields is accepted as it is, unless its uniqueness differs
      ensures fields != [] && old(HasIndexOn(fields)) ==>
                (r == Done <==> exists i | 0 <= i < |indexes| :: indexes[i].def == Def(fields, uniq))
                && (r == Done || r == Duplicate)
      ensures r == Done ==> exists i | 0 <= i < |indexes| :: indexes[i].def == Def(fields, uniq)
      ensures if r == Done && !old(HasIndexOn(fields))
              then && |indexes| == |old(indexes)| + 1 && old(indexes) <= indexes
                   && fresh(indexes[|old(indexes)|]) && indexes[|old(indexes)|].def == Def(fields, uniq)
              else indexes == old(indexes)
    {
      hide TextsOk, Reflects, SharesKeys;
      if fields == [] { return BadFilter; }
      var at := FindIndex(fields);
      if at.Some? {
        assert indexes[at.value].def == Def(fields, indexes[at.value].def.uniq);
        return if indexes[at.value].def.uniq == uniq then Done else Duplicate;
      }
      var idx, ok := BuildIndex(Def(fields, uniq));
      if !ok { return Duplicate; }
      indexes := indexes + [idx];
      assert indexes[|indexes| - 1].def == Def(fields, uniq);
      return Done;
    }

    method DropIndex(fields: seq<Bytes>) returns (r: Outcome)
      requires Valid()
      modifies this`indexes
      ensures Valid() && docs == old(docs) && !HasIndexOn(fields)
      ensures r == if old(HasIndexOn(fields)) then Done else NotFound
      ensures r == Done ==> exists i | 0 <= i < |old(indexes)| ::
                old(indexes)[i].def.fields == fields && indexes == old(indexes)[..i] + old(indexes)[i + 1..]
      ensures r != Done ==> indexes == old(indexes)
    {
      hide TextsOk, Reflects;
      var at := FindIndex(fields);
      if at == None { return NotFound; }
      var i := at.value;
      ghost var before := indexes;
      indexes := indexes[..i] + indexes[i + 1..];
      WithoutOne(before, indexes, i);
      return Done;
    }

    lemma IndexFacts(idx: Index)
      requires IndexOk(idx)
      ensures idx.def.uniq ==> OneOwner(idx.Keys())
    {
      idx.KeysHaveOwners();
    }
  }

  lemma WithoutOne<T>(s: seq<T>, t: seq<T>, i: nat)
    requires i < |s| && t == s[..i] + s[i + 1..]
    ensures forall j | 0 <= j < |t| :: t[j] == s[if j < i then j else j + 1]
  {
  }

  // ---------------------------------------------------------------- when a unique index refuses

  /** Another document already has a key this one produces. */
  ghost predicate Clashes(def: Def, tx: Texts, docs: Docs, d: Doc, id: Bytes)
  {
    def.uniq && exists k, other ::
      other != id && Produces(tx, def.fields, docs, k, other) && k in KeySet(tx, d, def.fields)
  }

  /** A document clashes with another one when they share a row of a unique index; no
      other index refuses anything, and no document clashes with itself. */
  lemma ClashMeans(def: Def, tx: Texts, docs: Docs, d: Doc, id: Bytes, other: Bytes, row: Row)
    ensures !def.uniq ==> !Clashes(def, tx, docs, d, id)
    ensures def.uniq && other in docs && other != id
            && row in Rows(tx, d, def.fields) && row in Rows(tx, docs[other], def.fields) ==>
              Clashes(def, tx, docs, d, id)
    ensures docs.Keys <= {id} ==> !Clashes(def, tx, docs, d, id)
  {
    hide Rows, EncodeKey;
    if row in Rows(tx, d, def.fields) && other in docs && row in Rows(tx, docs[other], def.fields) {
      var k := EncodeKey(tx.num, row);
      assert k in KeySet(tx, d, def.fields);
      assert Produces(tx, def.fields, docs, k, other);
    }
  }

  /** Two different documents share a key of a unique index. */
  ghost predicate SharesKeys(def: Def, tx: Texts, docs: Docs)
  {
    exists id :: id in docs && Clashes(def, tx, docs, docs[id], id)
  }

  /** For one index: it refuses the document exactly when there is a clash, and once
      moved it reflects the collection with the new document. */
  ghost predicate Settles(def: Def, m: KeyMap, tx: Texts, docs: Docs, d: Doc, id: Bytes)
  {
    var r := Without(m, tx, def.fields, Get(docs, id), id);
    && Blocked(def, r, tx, d, id) == Clashes(def, tx, docs, d, id)
    && (!Blocked(def, r, tx, d, id) ==> Reflects(With(def, r, tx, d, id), tx, def.fields, docs[id := d]))
  }

  lemma Settling(def: Def, m: KeyMap, tx: Texts, docs: Docs, d: Doc, id: Bytes)
    requires Reflects(m, tx, def.fields, docs)
    ensures Settles(def, m, tx, docs, d, id)
  {
    hide KeySet, With, Without, Reflects;
    WithoutFacts(m, tx, def.fields, docs, id);
    var r := Without(m, tx, def.fields, Get(docs, id), id);
    if !Blocked(def, r, tx, d, id) { WithReflects(def, r, tx, docs, id, d); }
    BlockedMeans(def, r, tx, docs, d, id);
  }

  lemma BlockedMeans(def: Def, r: KeyMap, tx: Texts, docs: Docs, d: Doc, id: Bytes)
    requires Reflects(r, tx, def.fields, docs - {id}) && OwnsNothing(r, id)
    ensures Blocked(def, r, tx, d, id) == Clashes(def, tx, docs, d, id)
  {
    hide KeySet;
    var ks := KeySet(tx, d, def.fields);
    if Blocked(def, r, tx, d, id) {
      var k :| k in ks && k in r && r[k] != {id};
      var other :| other in r[k];
      assert Produces(tx, def.fields, docs - {id}, k, other);
      assert Produces(tx, def.fields, docs, k, other);
    }
    if Clashes(def, tx, docs, d, id) {
      var k, other :| other != id && Produces(tx, def.fields, docs, k, other) && k in ks;
      assert Produces(tx, def.fields, docs - {id}, k, other);
      assert k in r && other in r[k] && other !in {id};
    }
  }

  /** The documents with these ids. */
  function Only(docs: Docs, ids: seq<Bytes>): Docs { map id | id in ids && id in docs :: docs[id] }

  lemma NothingReflects(tx: Texts, fields: seq<Bytes>, docs: Docs)
    ensures Reflects(map[], tx, fields, Only(docs, []))
  {
  }

  lemma OnlyGrows(docs: Docs, ids: seq<Bytes>, i: nat)
    requires i < |ids| && Ascending(ids) && forall j | 0 <= j < |ids| :: ids[j] in docs
    ensures Only(docs, ids[..i + 1]) == Only(docs, ids[..i])[ids[i] := docs[ids[i]]]
    ensures ids[i] !in Only(docs, ids[..i])
    ensures Get(Only(docs, ids[..i]), ids[i]) == None
  {
    hide Less;
    assert ids[..i + 1] == ids[..i] + [ids[i]];
    if ids[i] in ids[..i] {
      var j :| 0 <= j < i && ids[j] == ids[i];
      LessIrreflexive(ids[i]);
    }
  }

  lemma OnlyAll(docs: Docs, ids: seq<Bytes>)
    requires forall y: Bytes :: y in ids <==> y in docs
    ensures ids[..|ids|] == ids && Only(docs, ids) == docs
  {
  }

  lemma ClashIsShared(def: Def, tx: Texts, docs: Docs, sub: Docs, id: Bytes)
    requires id in docs && Clashes(def, tx, sub, docs[id], id)
    requires forall x <- sub :: x in docs && docs[x] == sub[x]
    ensures SharesKeys(def, tx, docs)
  {
    hide KeySet;
    var k, other :| other != id && Produces(tx, def.fields, sub, k, other) && k in KeySet(tx, docs[id], def.fields);
    assert Produces(tx, def.fields, docs, k, other);
    assert Clashes(def, tx, docs, docs[id], id);
  }

  lemma NothingShared(def: Def, m: KeyMap, tx: Texts, docs: Docs)
    requires Reflects(m, tx, def.fields, docs) && (def.uniq ==> OneOwner(m))
    ensures !SharesKeys(def, tx, docs)
  {
    hide KeySet, Reflects, OneOwner;
    if SharesKeys(def, tx, docs) {
      var id :| id in docs && Clashes(def, tx, docs, docs[id], id);
      var k, other :| other != id && Produces(tx, def.fields, docs, k, other) && k in KeySet(tx, docs[id], def.fields);
      UniqueKeysHaveOneDocument(m, tx, def.fields, docs, k, id, other);
    }
  }

  // ---------------------------------------------------------------- upserts that cannot read

  /** The new document has every row of the old one, or it shares none with it. */
  predicate RowsFit(fields: seq<Bytes>, tx: Texts, was: Doc, d: Doc, stored: bool)
  {
    if stored then KeySet(tx, was, fields) <= KeySet(tx, d, fields)
    else KeySet(tx, was, fields) !! KeySet(tx, d, fields)
  }

  /** One index after such an upsert, stored or rolled back. */
  ghost predicate UnreadFits(def: Def, m: KeyMap, tx: Texts, docs: Docs, d: Doc, id: Bytes)
    requires id in docs
  {
    var r := With(def, m, tx, d, id);
    && (!Blocked(def, m, tx, d, id) ==>
          (Reflects(r, tx, def.fields, docs[id := d]) <==> RowsFit(def.fields, tx, docs[id], d, true)))
    && (Reflects(Without(r, tx, def.fields, Some(d), id), tx, def.fields, docs)
        <==> RowsFit(def.fields, tx, docs[id], d, false))
  }

  lemma UnreadExact(def: Def, m: KeyMap, tx: Texts, docs: Docs, d: Doc, id: Bytes)
    requires Reflects(m, tx, def.fields, docs) && id in docs
    ensures UnreadFits(def, m, tx, docs, d, id)
  {
    hide KeySet, AddKeys, RemoveKeys, Conflict, Reflects;
    var ks := KeySet(tx, d, def.fields);
    AddedExact(m, tx, def.fields, docs, d, id);
    RemovedExact(m, m, tx, def.fields, docs, d, id);
    RemovedExact(m, AddKeys(m, ks, id), tx, def.fields, docs, d, id);
  }

  lemma ProducesNow(tx: Texts, fields: seq<Bytes>, docs: Docs, d: Doc, id: Bytes, k: Bytes, x: Bytes)
    requires id in docs
    ensures Produces(tx, fields, docs[id := d], k, x)
            <==> if x == id then k in KeySet(tx, d, fields) else Produces(tx, fields, docs, k, x)
    ensures Produces(tx, fields, docs, k, id) <==> k in KeySet(tx, docs[id], fields)
  {
    hide KeySet;
  }

  lemma AddedExact(m: KeyMap, tx: Texts, fields: seq<Bytes>, docs: Docs, d: Doc, id: Bytes)
    requires Reflects(m, tx, fields, docs) && id in docs
    ensures Reflects(AddKeys(m, KeySet(tx, d, fields), id), tx, fields, docs[id := d])
            <==> KeySet(tx, docs[id], fields) <= KeySet(tx, d, fields)
  {
    hide KeySet, AddKeys, Produces;
    var was, ks := KeySet(tx, docs[id], fields), KeySet(tx, d, fields);
    var r, now := AddKeys(m, ks, id), docs[id := d];
    NeverEmpty(m, ks, id);
    forall k: Bytes, x: Bytes
      ensures k in r && x in r[k] <==> Produces(tx, fields, docs, k, x) || (k in ks && x == id)
    {
      AddMembers(m, ks, id, k, x);
      assert k in m && x in m[k] <==> Produces(tx, fields, docs, k, x);
    }
    if was <= ks {
      forall k: Bytes, x: Bytes
        ensures k in r && x in r[k] <==> Produces(tx, fields, now, k, x)
      {
        ProducesNow(tx, fields, docs, d, id, k, x);
      }
    }
    if Reflects(r, tx, fields, now) {
      forall k | k in was
        ensures k in ks
      {
        ProducesNow(tx, fields, docs, d, id, k, id);
        assert k in r && id in r[k] <==> Produces(tx, fields, now, k, id);
      }
    }
  }

  /** Taking the new rows away from the old map, with or without having added them. */
  lemma RemovedExact(m: KeyMap, added: KeyMap, tx: Texts, fields: seq<Bytes>, docs: Docs, d: Doc, id: Bytes)
    requires Reflects(m, tx, fields, docs) && id in docs
    requires added == m || added == AddKeys(m, KeySet(tx, d, fields), id)
    ensures Reflects(RemoveKeys(added, KeySet(tx, d, fields), id), tx, fields, docs)
            <==> KeySet(tx, docs[id], fields) !! KeySet(tx, d, fields)
  {
    hide KeySet, AddKeys, RemoveKeys, Produces;
    var was, ks := KeySet(tx, docs[id], fields), KeySet(tx, d, fields);
    var r := RemoveKeys(added, ks, id);
    NeverEmpty(m, ks, id);
    NeverEmpty(added, ks, id);
    forall k: Bytes, x: Bytes
      ensures k in r && x in r[k] <==> Produces(tx, fields, docs, k, x) && !(k in ks && x == id)
    {
      AddMembers(m, ks, id, k, x);
      RemoveMembers(added, ks, id, k, x);
      assert k in m && x in m[k] <==> Produces(tx, fields, docs, k, x);
    }
    forall k: Bytes
      ensures k in was <==> Produces(tx, fields, docs, k, id)
    {
      ProducesNow(tx, fields, docs, d, id, k, id);
    }
    if Reflects(r, tx, fields, docs) {
      forall k | k in was
        ensures k !in ks
      {
        assert k in r && id in r[k] <==> Produces(tx, fields, docs, k, id);
      }
    }
  }

  /** A document under the id 1 whose one field holds this number. */
  function Sample(n: int): Doc { map[[97] := Num(n), ID_FIELD := Str([49])] }

  lemma SampleKeys(tx: Texts, n: int)
    ensures KeySet(tx, Sample(n), [[97]]) == {EncodeKey(tx.num, [Number(n)])}
  {
    var f: Bytes := [97];
    assert DOT !in f && ID_FIELD != f;
    assert Lookup(Sample(n), f) == Some(Num(n));
    assert Components(tx, Sample(n), f) == [Number(n)];
    assert [f][..0] == [] && Rows(tx, Sample(n), [f][..0]) == [[]];
    assert Extend([[]], [Number(n)]) == [[Number(n)]] by {
      assert [Number(n)][..0] == [];
      assert AppendEach([[]], Number(n))[0] == [] + [Number(n)] == [Number(n)];
    }
    assert Rows(tx, Sample(n), [f]) == [[Number(n)]];
  }

  /** The keys of 1 and 2 differ, so neither of the two conditions can be met by
      a document whose value changes from one to the other. */
  lemma SamplesApart(tx: Texts)
    requires TextsOk(tx)
    ensures !RowsFit([[97]], tx, Sample(1), Sample(2), true)
  {
    SampleKeys(tx, 1);
    SampleKeys(tx, 2);
    if EncodeKey(tx.num, [Number(1)]) == EncodeKey(tx.num, [Number(2)]) {
      KeyInjective(tx.num, [Number(1)], [Number(2)]);
    }
  }

  lemma NothingShares(def: Def, tx: Texts)
    ensures !SharesKeys(def, tx, map[])
  {
  }

  lemma SampleStays(def: Def, m: KeyMap, tx: Texts)
    requires TextsOk(tx) && def == Def([[97]], false) && Reflects(m, tx, def.fields, map[[49] := Sample(1)])
    ensures !Blocked(def, m, tx, Sample(2), [49])
    ensures var r, key := With(def, m, tx, Sample(2), [49]), EncodeKey(tx.num, [Number(1)]);
            key in r && [49] in r[key] && key !in KeySet(tx, Sample(2), [[97]])
  {
    hide KeySet, TextsOk, AddKeys;
    SampleKeys(tx, 1);
    SampleKeys(tx, 2);
    SamplesApart(tx);
    var key := EncodeKey(tx.num, [Number(1)]);
    assert Produces(tx, def.fields, map[[49] := Sample(1)], key, [49]);
    AddMembers(m, KeySet(tx, Sample(2), def.fields), [49], key, [49]);
  }

  /** A collection with one index and the document of value 1 in it. */
  method SampleCollection(tx: Texts, crc: Body -> int, fits: Doc -> bool) returns (c: Collection)
    requires TextsOk(tx)
    ensures fresh(c) && c.Valid() && c.tx == tx && c.docs == map[[49] := Sample(1)]
    ensures |c.indexes| == 1 && fresh(c.indexes[0]) && c.indexes[0].def == Def([[97]], false)
    ensures Reflects(c.indexes[0].Keys(), tx, [[97]], map[[49] := Sample(1)])
  {
    hide TextsOk, KeySet, Reflects, Blocked, With, SharesKeys, Sample;
    c := new Collection(tx, crc, fits);
    NothingShares(Def([[97]], false), tx);
    var made := c.EnsureIndex([[97]], false);
    var put := c.Insert([49], Sample(1));
    assert !c.Refused(Sample(1), [49]);
  }

  /** A concrete failure: the value of an indexed field is 1, an upsert that cannot read
      the document sets it to 2, and the index still lists the document under 1. */
  method UnreadUpsertLeavesRow(tx: Texts, crc: Body -> int, fits: Doc -> bool) returns (c: Collection)
    requires TextsOk(tx)
    ensures fresh(c) && c.Ready() && !c.Valid() && c.docs == map[[49] := Sample(2)]
    ensures |c.indexes| == 1 && c.indexes[0].def == Def([[97]], false)
    ensures var m, key := c.indexes[0].Keys(), EncodeKey(tx.num, [Number(1)]);
            key in m && [49] in m[key] && key !in KeySet(tx, Sample(2), [[97]])
  {
    hide TextsOk, KeySet, Reflects, RowsFit, Blocked, With, Sample, EncodeKey, Collection.Valid, Collection.Ready;
    c := SampleCollection(tx, crc, fits);
    SamplesApart(tx);
    SampleStays(c.indexes[0].def, c.indexes[0].Keys(), tx);
    SampleID();
    var r := c.UpsertUnread([49], Sample(2));
  }

  lemma SampleID()
    ensures Sample(2)[ID_FIELD := Str([49])] == Sample(2)
  {
  }

  // ---------------------------------------------------------------- patches

  /** A patch cannot change the id; a removal list can drop it. */
  lemma PatchKeepsID(d: Doc, patch: Doc, remove: set<Bytes>)
    ensures ID_FIELD == Ascii("_id")
    ensures forall k :: k in Patched(d, patch, remove) <==>
              k !in remove && (k in d || (k in patch && k != Ascii("_id")))
    ensures ID_FIELD in Patched(d, patch, remove) <==> ID_FIELD in d && ID_FIELD !in remove
    ensures ID_FIELD in Patched(d, patch, remove) ==> Patched(d, patch, remove)[ID_FIELD] == d[ID_FIELD]
    ensures forall k <- patch | k != ID_FIELD && k !in remove ::
              k in Patched(d, patch, remove) && Patched(d, patch, remove)[k] == patch[k]
    ensures forall k <- d | k !in patch && k !in remove ::
              k in Patched(d, patch, remove) && Patched(d, patch, remove)[k] == d[k]
  {
  }

  method BuildPatched(d: Doc, patch: Doc, remove: seq<Bytes>) returns (next: Doc)
    ensures next == Patched(d, patch, SetOf(remove))
  {
    next := MergePatch(d, patch);
    ghost var merged := next;
    for i := 0 to |remove|
      invariant next == merged - SetOf(remove[..i])
    {
      assert remove[..i + 1] == remove[..i] + [remove[i]];
      assert SetOf(remove[..i + 1]) == SetOf(remove[..i]) + {remove[i]};
      next := next - {remove[i]};
    }
    assert remove[..|remove|] == remove;
  }

  method MergePatch(d: Doc, patch: Doc) returns (next: Doc)
    ensures next == d + (patch - {ID_FIELD})
  {
    next := d;
    var todo := patch.Keys;
    while todo != {}
      invariant todo <= patch.Keys && next == d + (patch - todo - {ID_FIELD})
      decreases todo
    {
      var k :| k in todo;
      assert (patch - (todo - {k})).Keys == (patch - todo).Keys + {k};
      todo := todo - {k};
      if k == ID_FIELD { continue; }
      next := next[k := patch[k]];
    }
    assert patch - {} == patch;
  }

  // ---------------------------------------------------------------- rollback

  /** The two halves of a rollback, for one index. */
  ghost predicate RollsBack(def: Def, m: KeyMap, tx: Texts, was: Option<Doc>, d: Doc, id: Bytes)
  {
    var r := Without(m, tx, def.fields, was, id);
    && Without(With(def, r, tx, d, id), tx, def.fields, Some(d), id) == r
    && (was.Some? ==> With(def, r, tx, was.value, id) == m)
  }

  lemma Rollback(def: Def, m: KeyMap, tx: Texts, docs: Docs, d: Doc, id: Bytes)
    requires Reflects(m, tx, def.fields, docs) && (def.uniq ==> OneOwner(m))
    ensures RollsBack(def, m, tx, Get(docs, id), d, id)
  {
    hide Reflects, KeySet, Blocked, With;
    WithoutFacts(m, tx, def.fields, docs, id);
    RollbackAdd(def, Without(m, tx, def.fields, Get(docs, id), id), tx, d, id);
    if id in docs { RollbackRemove(def, m, tx, docs, id); }
  }
}
