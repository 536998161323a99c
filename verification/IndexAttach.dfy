/** Indexes on their way to the log and back: a flush serializes every index of a
    collection, and an open attaches the texts it finds to the indexes META lists. */
module IndexAttach {
  import opened ByteCodec
  import opened Values
  import opened IndexRows
  import opened IndexKeys
  import opened KeyMaps
  import opened OrdList
  import opened Csr
  import opened Indexes
  import opened Collections
  import Scan

  /** How a persisted text is read. */
  datatype Reader = Reader(tx: Texts, crc: Body -> int, parse: Bytes -> Option<Payload>)

  /** The text is an index over these documents: whatever part of it loading trusts
      holds a key map that reflects them. */
  ghost predicate Tells(x: Reader, text: Bytes, docs: map<Bytes, Doc>)
  {
    x.parse(text).Some? && exists ord, km :: TellsAs(x, x.parse(text).value, docs, ord, km)
  }

  ghost predicate TellsAs(x: Reader, p: Payload, docs: map<Bytes, Doc>, ord: seq<OrdEntry>, km: KeyMap)
  {
    Storable(x.tx, Def(p.fields, p.uniq), ord, km) && Says(p, x.crc, ord, km) && Reflects(km, x.tx, p.fields, docs)
  }

  /** The text was an index over some documents, once. */
  ghost predicate Loads(x: Reader, text: Bytes) { exists docs: map<Bytes, Doc> :: Tells(x, text, docs) }

  predicate IsFor(x: Reader, t: Scan.IdxText, coll: Bytes, def: Def)
  {
    t.coll == coll && x.parse(t.text).Some? && Def(x.parse(t.text).value.fields, x.parse(t.text).value.uniq) == def
  }

  /** Later texts of an index replace earlier ones. */
  function LastFor(x: Reader, list: seq<Scan.IdxText>, coll: Bytes, def: Def): Option<Bytes>
  {
    if list == [] then None
    else if IsFor(x, list[|list| - 1], coll, def) then Some(list[|list| - 1].text)
    else LastFor(x, list[..|list| - 1], coll, def)
  }

  predicate DefsOk(defs: seq<Def>)
  {
    && (forall j | 0 <= j < |defs| :: defs[j].fields != [])
    && (forall i, j | 0 <= i < j < |defs| :: defs[i].fields != defs[j].fields)
  }

  /** Every text of the collection was an index once. */
  ghost predicate AllLoad(x: Reader, coll: Bytes, list: seq<Scan.IdxText>)
  {
    forall i | 0 <= i < |list| && list[i].coll == coll :: Loads(x, list[i].text)
  }

  function Spelled(fields: seq<Bytes>): Bytes
  {
    if fields == [] then [] else if |fields| == 1 then fields[0] else fields[0] + [32] + Spelled(fields[1..])
  }

  /** The text the scan notes an index under: collection, fields printed in brackets,
      and whether it is unique. */
  function IdxKey(coll: Bytes, def: Def): Bytes
  {
    coll + [0] + [91] + Spelled(def.fields) + [93] + [0] +
      (if def.uniq then [116, 114, 117, 101] else [102, 97, 108, 115, 101])
  }

  lemma SpelledAlike()
    ensures Spelled([Ascii("a"), Ascii("b")]) == Ascii("a b") == Spelled([Ascii("a b")])
  {
    var two := [Ascii("a"), Ascii("b")];
    assert two[1..] == [Ascii("b")];
    assert Spelled(two) == Ascii("a") + [32] + Ascii("b");
  }

  /** For example; and two indexes can have one key. */
  lemma IdxKeyText(coll: Bytes)
    ensures IdxKey(coll, Def([Ascii("a"), Ascii("b")], true)) == coll + [0] + Ascii("[a b]") + [0] + Ascii("true")
    ensures IdxKey(coll, Def([Ascii("a b")], false)) == coll + [0] + Ascii("[a b]") + [0] + Ascii("false")
    ensures IdxKey(coll, Def([Ascii("a b")], true)) == IdxKey(coll, Def([Ascii("a"), Ascii("b")], true))
  {
    hide Spelled;
    SpelledAlike();
    Brackets();
    assert coll + [0] + [91] + Ascii("a b") + [93] == coll + [0] + ([91] + Ascii("a b") + [93]);
  }

  lemma Brackets()
    ensures [91] + Ascii("a b") + [93] == Ascii("[a b]")
    ensures Ascii("true") == [116, 114, 117, 101] && Ascii("false") == [102, 97, 108, 115, 101]
  {
  }

  /** Field names with blanks can print alike, so an index may also be seen that has no
      text; it is left empty. */
  predicate Seen(x: Reader, list: seq<Scan.IdxText>, coll: Bytes, def: Def)
  {
    exists i | 0 <= i < |list| :: NotedAs(x, list[i], IdxKey(coll, def))
  }

  predicate NotedAs(x: Reader, t: Scan.IdxText, key: Bytes)
  {
    var p := x.parse(t.text);
    p.Some? && IdxKey(t.coll, Def(p.value.fields, p.value.uniq)) == key
  }

  /** An index that has a text is seen. */
  lemma {:induction false} TextIsSeen(x: Reader, list: seq<Scan.IdxText>, coll: Bytes, def: Def)
    ensures LastFor(x, list, coll, def).Some? ==> Seen(x, list, coll, def)
  {
    if list != [] {
      var n := |list| - 1;
      if IsFor(x, list[n], coll, def) {
        assert NotedAs(x, list[n], IdxKey(coll, def));
      } else {
        TextIsSeen(x, list[..n], coll, def);
      }
    }
  }

  /** Every index of the collection that META lists is seen, and every text of the
      collection belongs to one of them. */
  predicate Matched(x: Reader, coll: Bytes, defs: seq<Def>, list: seq<Scan.IdxText>)
  {
    && (forall j | 0 <= j < |defs| :: Seen(x, list, coll, defs[j]))
    && AllDefined(x, coll, defs, list)
  }

  predicate AllDefined(x: Reader, coll: Bytes, defs: seq<Def>, list: seq<Scan.IdxText>)
  {
    forall i | 0 <= i < |list| && list[i].coll == coll :: HasDef(x, defs, list[i])
  }

  predicate HasDef(x: Reader, defs: seq<Def>, t: Scan.IdxText)
  {
    exists j | 0 <= j < |defs| :: IsFor(x, t, t.coll, defs[j])
  }

  /** Both maps of documents put the same rows into an index on these fields. */
  ghost predicate SameRows(tx: Texts, fields: seq<Bytes>, a: map<Bytes, Doc>, b: map<Bytes, Doc>)
  {
    forall k, id :: Produces(tx, fields, a, k, id) <==> Produces(tx, fields, b, k, id)
  }

  // ---------------------------------------------------------------- a flush

  /** Serialize every index. Each text is an index over the documents of this moment. */
  method StageIndexes(c: Collection, write: Payload -> Bytes, ghost x: Reader) returns (texts: seq<Bytes>)
    requires c.Valid() && x.tx == c.tx && x.crc == c.crc && forall p: Payload :: x.parse(write(p)) == Some(p)
    modifies c.indexes
    ensures c.Valid() && c.docs == old(c.docs) && c.indexes == old(c.indexes) && |texts| == |c.indexes|
    ensures forall j | 0 <= j < |texts| ::
      Tells(x, texts[j], c.docs) && IsFor(x, Scan.IdxText([], texts[j]), [], c.indexes[j].def)
  {
    hide TextsOk, Reflects, Storable, Says, Index.Valid;
    texts := [];
    for i := 0 to |c.indexes|
      invariant c.Valid() && |texts| == i
      invariant forall j | 0 <= j < i ::
        Tells(x, texts[j], c.docs) && IsFor(x, Scan.IdxText([], texts[j]), [], c.indexes[j].def)
    {
      var idx := c.indexes[i];
      var p := idx.Serialize();
      Serialized(p, x.crc, idx.ord, idx.Keys());
      assert TellsAs(x, p, c.docs, idx.ord, idx.Keys());
      texts := texts + [write(p)];
    }
  }

  lemma Serialized(p: Payload, crc: Body -> int, ord: seq<OrdEntry>, km: KeyMap)
    requires RowsSay(p.rows, ord, km) && p.csr.Some? && Accepted(p.csr.value, crc) && Mirrors(p.csr.value.body, ord, km)
    ensures Says(p, crc, ord, km)
  {
  }

  // ---------------------------------------------------------------- an open

  /** The index among those made with exactly this definition. */
  method Target(idxs: seq<Index>, p: Payload) returns (at: Option<nat>)
    ensures at.Some? ==> at.value < |idxs| && idxs[at.value].def == Def(p.fields, p.uniq)
    ensures at.None? ==> forall j | 0 <= j < |idxs| :: idxs[j].def != Def(p.fields, p.uniq)
  {
    for i := 0 to |idxs|
      invariant forall j | 0 <= j < i :: idxs[j].def != Def(p.fields, p.uniq)
    {
      if idxs[i].def.fields == p.fields && idxs[i].def.uniq == p.uniq { return Some(i); }
    }
    return None;
  }

  /** Empty indexes for the definitions META lists. */
  method MakeIndexes(x: Reader, defs: seq<Def>) returns (idxs: seq<Index>)
    requires TextsOk(x.tx)
    ensures |idxs| == |defs| && Made(x, defs, idxs)
    ensures forall j | 0 <= j < |idxs| :: fresh(idxs[j])
    ensures forall i, j | 0 <= i < j < |idxs| :: idxs[i] != idxs[j]
  {
    hide TextsOk;
    idxs := [];
    for i := 0 to |defs|
      invariant |idxs| == i && Made(x, defs[..i], idxs)
      invariant forall j | 0 <= j < i :: fresh(idxs[j])
      invariant forall k, j | 0 <= k < j < i :: idxs[k] != idxs[j]
    {
      var idx := new Index(x.tx, x.crc, defs[i]);
      idxs := idxs + [idx];
    }
    assert defs[..|defs|] == defs;
  }

  ghost predicate Made(x: Reader, defs: seq<Def>, idxs: seq<Index>)
    reads idxs
  {
    && |idxs| == |defs|
    && forall j | 0 <= j < |idxs| ::
         idxs[j].Valid() && idxs[j].tx == x.tx && idxs[j].crc == x.crc && idxs[j].def == defs[j]
  }

  /** Load the texts in log order into the indexes of one collection. None is the fall
      back to reading every document: an index that was not seen, a text without an
      index, or one that does not load. */
  method AttachIndexes(x: Reader, fits: Doc -> bool, coll: Bytes, defs: seq<Def>, list: seq<Scan.IdxText>,
      docs: map<Bytes, Doc>, ghost told: map<Bytes, Doc>) returns (r: Option<Collection>)
    requires TextsOk(x.tx) && DefsOk(defs)
    ensures AllLoad(x, coll, list) ==> (r.Some? <==> Matched(x, coll, defs, list))
    ensures r.Some? ==>
      var c := r.value;
      && fresh(c) && c.docs == docs && c.tx == x.tx && |c.indexes| == |defs|
      && forall j | 0 <= j < |defs| :: fresh(c.indexes[j]) && c.indexes[j].def == defs[j]
    ensures r.Some? && AllLoad(x, coll, list) ==> r.value.Ready()
    ensures r.Some? && AllLoad(x, coll, list) &&
            (forall j | 0 <= j < |defs| :: LastTells(x, list, coll, defs[j], told)) ==>
      && (forall j | 0 <= j < |defs| :: Reflects(r.value.indexes[j].Keys(), x.tx, defs[j].fields, told))
      && (r.value.Valid() <==> forall j | 0 <= j < |defs| :: SameRows(x.tx, defs[j].fields, told, docs))
  {
    hide TextsOk, Reflects, Index.Valid, Collection.Valid, SameRows, LastTells, Seen, AllLoad, HasDef;
    if exists j | 0 <= j < |defs| :: !Seen(x, list, coll, defs[j]) { return None; }
    var idxs := MakeIndexes(x, defs);
    var ok := LoadAll(x, idxs, coll, defs, list, told);
    if !ok { return None; }
    var c := new Collection(x.tx, x.crc, fits);
    c.docs, c.indexes := docs, idxs;
    if AllLoad(x, coll, list) && forall j | 0 <= j < |defs| :: LastTells(x, list, coll, defs[j], told) {
      AttachedExact(c, told);
    }
    return Some(c);
  }

  method LoadAll(x: Reader, idxs: seq<Index>, coll: Bytes, defs: seq<Def>, list: seq<Scan.IdxText>,
      ghost told: map<Bytes, Doc>) returns (ok: bool)
    requires TextsOk(x.tx) && DefsOk(defs) && Made(x, defs, idxs)
    requires forall i, j | 0 <= i < j < |idxs| :: idxs[i] != idxs[j]
    modifies idxs
    ensures ok ==> AllDefined(x, coll, defs, list)
    ensures AllLoad(x, coll, list) ==>
      && Made(x, defs, idxs)
      && (ok <==> AllDefined(x, coll, defs, list))
      && (ok ==> forall j | 0 <= j < |idxs| ::
            LastTells(x, list, coll, defs[j], told) ==> Reflects(idxs[j].Keys(), x.tx, defs[j].fields, told))
  {
    hide TextsOk, Reflects, TellsAs, Index.Valid;
    ghost var good := AllLoad(x, coll, list);
    for i := 0 to |list|
      invariant good ==> Made(x, defs, idxs)
      invariant forall j | 0 <= j < |idxs| :: idxs[j].def == defs[j] && idxs[j].tx == x.tx && idxs[j].crc == x.crc
      invariant forall k | 0 <= k < i && list[k].coll == coll :: HasDef(x, defs, list[k])
      invariant good ==> forall j | 0 <= j < |idxs| ::
        LastTells(x, list[..i], coll, defs[j], told) ==> Reflects(idxs[j].Keys(), x.tx, defs[j].fields, told)
    {
      LastForNext(x, list, i, coll);
      if list[i].coll != coll { continue; }
      var p := x.parse(list[i].text);
      if p.None? { return false; }
      var at := Target(idxs, p.value);
      if at.None? { return false; }
      assert IsFor(x, list[i], list[i].coll, defs[at.value]);
      var fine := LoadOne(x, idxs[at.value], list[i].text, p.value, told);
      if !fine { return false; }
    }
    assert list[..|list|] == list;
    return true;
  }

  ghost predicate LastTells(x: Reader, list: seq<Scan.IdxText>, coll: Bytes, def: Def, told: map<Bytes, Doc>)
  {
    LastFor(x, list, coll, def).Some? && Tells(x, LastFor(x, list, coll, def).value, told)
  }

  lemma LastForNext(x: Reader, list: seq<Scan.IdxText>, i: nat, coll: Bytes)
    requires i < |list|
    ensures forall def :: LastFor(x, list[..i + 1], coll, def)
                          == if IsFor(x, list[i], coll, def) then Some(list[i].text)
                             else LastFor(x, list[..i], coll, def)
  {
    assert list[..i + 1][..i] == list[..i];
  }

  /** Load one text into the index of its definition. */
  method LoadOne(x: Reader, idx: Index, text: Bytes, p: Payload, ghost told: map<Bytes, Doc>) returns (ok: bool)
    requires TextsOk(x.tx) && idx.tx == x.tx && idx.crc == x.crc && x.parse(text) == Some(p)
    requires Def(p.fields, p.uniq) == idx.def
    modifies idx
    ensures Loads(x, text) ==> ok && idx.Valid()
    ensures Tells(x, text, told) ==> Reflects(idx.Keys(), x.tx, idx.def.fields, told)
  {
    hide TextsOk, Reflects, Storable, Says, Index.Valid;
    ghost var o, km := [], map[];
    if Tells(x, text, told) {
      o, km :| TellsAs(x, p, told, o, km);
    } else if Loads(x, text) {
      var docs: map<Bytes, Doc> :| Tells(x, text, docs);
      o, km :| TellsAs(x, p, docs, o, km);
    }
    ok := idx.LoadRows(p, o, km);
  }

  /** Indexes that reflect one map of documents are sound over another exactly when
      both give the same rows. */
  lemma AttachedExact(c: Collection, told: map<Bytes, Doc>)
    requires TextsOk(c.tx) && c.Ready()
    requires forall i, j | 0 <= i < j < |c.indexes| :: c.indexes[i].def.fields != c.indexes[j].def.fields
    requires forall j | 0 <= j < |c.indexes| :: Reflects(c.indexes[j].Keys(), c.tx, c.indexes[j].def.fields, told)
    ensures c.Valid() <==>
            forall j | 0 <= j < |c.indexes| :: SameRows(c.tx, c.indexes[j].def.fields, told, c.docs)
  {
    hide TextsOk, Reflects, SameRows, Index.Valid;
    forall j | 0 <= j < |c.indexes|
      ensures Reflects(c.indexes[j].Keys(), c.tx, c.indexes[j].def.fields, c.docs)
              <==> SameRows(c.tx, c.indexes[j].def.fields, told, c.docs)
    {
      ReflectsExact(c.indexes[j].Keys(), c.tx, c.indexes[j].def.fields, told, c.docs);
    }
  }

  lemma ReflectsExact(m: KeyMap, tx: Texts, fields: seq<Bytes>, told: map<Bytes, Doc>, docs: map<Bytes, Doc>)
    requires Reflects(m, tx, fields, told)
    ensures Reflects(m, tx, fields, docs) <==> SameRows(tx, fields, told, docs)
  {
    hide Produces;
  }
}
