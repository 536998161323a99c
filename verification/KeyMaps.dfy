/** The meaning of an index: which documents own which key, as a function of the
    documents alone, and what adding and removing a document do to it. */
module KeyMaps {
  import opened ByteCodec
  import opened Values
  import opened IndexRows

  type KeyMap = map<Bytes, set<Bytes>>
  type Docs = map<Bytes, Doc>

  datatype Def = Def(fields: seq<Bytes>, uniq: bool)

  // ---------------------------------------------------------------- one document

  function AddKeys(m: KeyMap, ks: set<Bytes>, id: Bytes): KeyMap
  {
    map k | k in m.Keys + ks :: if k !in ks then m[k] else if k in m then m[k] + {id} else {id}
  }

  function RemoveKeys(m: KeyMap, ks: set<Bytes>, id: Bytes): KeyMap
  {
    map k | k in m && !(k in ks && m[k] <= {id}) :: if k in ks then m[k] - {id} else m[k]
  }

  predicate NoEmpty(m: KeyMap) { forall k <- m :: m[k] != {} }

  /** Every key has one owner. */
  predicate OneOwner(m: KeyMap) { forall k <- m :: |m[k]| == 1 }

  /** Some key already belongs to another document. */
  predicate Conflict(m: KeyMap, ks: set<Bytes>, id: Bytes)
  {
    exists k :: k in ks && k in m && m[k] != {id}
  }

  lemma AddTwice(m: KeyMap, a: set<Bytes>, b: set<Bytes>, id: Bytes)
    ensures AddKeys(AddKeys(m, a, id), b, id) == AddKeys(m, a + b, id)
  {
    forall k | k in m
      ensures m[k] + {id} + {id} == m[k] + {id}
    {
    }
    assert {id} + {id} == {id};
    assert AddKeys(AddKeys(m, a, id), b, id).Keys == AddKeys(m, a + b, id).Keys;
  }

  lemma RemoveTwice(m: KeyMap, a: set<Bytes>, b: set<Bytes>, id: Bytes)
    requires NoEmpty(m)
    ensures RemoveKeys(RemoveKeys(m, a, id), b, id) == RemoveKeys(m, a + b, id)
  {
    forall k | k in m
      ensures m[k] - {id} - {id} == m[k] - {id}
      ensures m[k] - {id} <= {id} <==> m[k] <= {id}
    {
      assert m[k] <= m[k] - {id} + {id};
    }
  }

  /** Adding keys a document does not own yet and removing them again changes nothing. */
  lemma RemoveUndoesAdd(m: KeyMap, ks: set<Bytes>, id: Bytes)
    requires NoEmpty(m) && forall k <- m :: id !in m[k]
    ensures RemoveKeys(AddKeys(m, ks, id), ks, id) == m
  {
    var r := RemoveKeys(AddKeys(m, ks, id), ks, id);
    forall k | k in m
      ensures k in r && r[k] == m[k]
    {
      var x :| x in m[k];
      assert m[k] + {id} - {id} == m[k];
      assert x in AddKeys(m, ks, id)[k];
    }
  }

  /** Removing exactly the keys a document owns and adding them back changes nothing. */
  lemma AddUndoesRemove(m: KeyMap, ks: set<Bytes>, id: Bytes)
    requires NoEmpty(m) && forall k :: k in ks <==> k in m && id in m[k]
    ensures AddKeys(RemoveKeys(m, ks, id), ks, id) == m
  {
    forall k | k in ks
      ensures m[k] - {id} + {id} == m[k] && (m[k] <= {id} ==> m[k] == {id})
    {
    }
    assert ks <= m.Keys;
  }

  /** A document that owns none of the keys is not affected by their removal. */
  lemma RemoveForeign(m: KeyMap, ks: set<Bytes>, id: Bytes)
    requires NoEmpty(m) && forall k <- m :: id !in m[k]
    ensures RemoveKeys(m, ks, id) == m
  {
    forall k | k in m && k in ks
      ensures !(m[k] <= {id}) && m[k] - {id} == m[k]
    {
      var x :| x in m[k];
    }
  }

  lemma Singleton(s: set<Bytes>, x: Bytes)
    requires |s| == 1 && x in s
    ensures s == {x}
  {
    assert |s - {x}| == 0;
  }

  // ---------------------------------------------------------------- all documents

  /** id owns the key k: its document produces it. */
  predicate Produces(tx: Texts, fields: seq<Bytes>, docs: Docs, k: Bytes, id: Bytes)
  {
    id in docs && k in KeySet(tx, docs[id], fields)
  }

  /** m maps each key to exactly the ids whose document produces it. */
  ghost predicate Reflects(m: KeyMap, tx: Texts, fields: seq<Bytes>, docs: Docs)
  {
    && NoEmpty(m)
    && forall k: Bytes, id: Bytes :: k in m && id in m[k] <==> Produces(tx, fields, docs, k, id)
  }

  /** There is no slack in that: the documents determine the key map. */
  lemma ReflectsUnique(m: KeyMap, n: KeyMap, tx: Texts, fields: seq<Bytes>, docs: Docs)
    requires Reflects(m, tx, fields, docs) && Reflects(n, tx, fields, docs)
    ensures m == n
  {
    hide Produces;
    forall k | k in m
      ensures k in n && m[k] == n[k]
    {
      var x :| x in m[k];
      assert Produces(tx, fields, docs, k, x);
      forall id: Bytes
        ensures id in m[k] <==> id in n[k]
      {
        assert Produces(tx, fields, docs, k, id) || !Produces(tx, fields, docs, k, id);
      }
    }
    forall k | k in n
      ensures k in m
    {
      var x :| x in n[k];
      assert Produces(tx, fields, docs, k, x);
    }
  }

  lemma RemoveReflects(m: KeyMap, tx: Texts, fields: seq<Bytes>, docs: Docs, id: Bytes)
    requires Reflects(m, tx, fields, docs) && id in docs
    ensures Reflects(RemoveKeys(m, KeySet(tx, docs[id], fields), id), tx, fields, docs - {id})
  {
    hide KeySet;
    var ks := KeySet(tx, docs[id], fields);
    var r := RemoveKeys(m, ks, id);
    forall k: Bytes, x: Bytes
      ensures k in r && x in r[k] <==> Produces(tx, fields, docs - {id}, k, x)
    {
      assert k in m && x in m[k] <==> Produces(tx, fields, docs, k, x);
      assert k in m && id in m[k] <==> Produces(tx, fields, docs, k, id);
    }
  }

  lemma AddReflects(m: KeyMap, tx: Texts, fields: seq<Bytes>, docs: Docs, id: Bytes, d: Doc)
    requires Reflects(m, tx, fields, docs) && id !in docs
    ensures Reflects(AddKeys(m, KeySet(tx, d, fields), id), tx, fields, docs[id := d])
  {
    hide KeySet;
    var ks := KeySet(tx, d, fields);
    var r := AddKeys(m, ks, id);
    var now := docs[id := d];
    assert NoEmpty(r) by {
      forall k | k in r
        ensures r[k] != {}
      {
        if k in m { var x :| x in m[k]; assert x in r[k]; } else { assert id in r[k]; }
      }
    }
    forall k: Bytes, x: Bytes
      ensures k in r && x in r[k] <==> Produces(tx, fields, now, k, x)
    {
      assert k in m && x in m[k] <==> Produces(tx, fields, docs, k, x);
      if x != id { assert k in r && x in r[k] <==> k in m && x in m[k]; }
    }
  }

  lemma AddMembers(m: KeyMap, ks: set<Bytes>, id: Bytes, k: Bytes, x: Bytes)
    ensures var r := AddKeys(m, ks, id);
            k in r && x in r[k] <==> (k in m && x in m[k]) || (k in ks && x == id)
  {
  }

  lemma RemoveMembers(m: KeyMap, ks: set<Bytes>, id: Bytes, k: Bytes, x: Bytes)
    ensures var r := RemoveKeys(m, ks, id);
            k in r && x in r[k] <==> k in m && x in m[k] && !(k in ks && x == id)
  {
  }

  lemma NeverEmpty(m: KeyMap, ks: set<Bytes>, id: Bytes)
    requires NoEmpty(m)
    ensures NoEmpty(AddKeys(m, ks, id)) && NoEmpty(RemoveKeys(m, ks, id))
  {
    var a, r := AddKeys(m, ks, id), RemoveKeys(m, ks, id);
    forall k | k in a
      ensures a[k] != {}
    {
      if k in ks { assert id in a[k]; }
    }
    forall k | k in r
      ensures r[k] != {}
    {
      if k in ks {
        var x :| x in m[k] && x != id;
        assert x in r[k];
      }
    }
  }
}
