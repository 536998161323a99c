/** Every step of the durability protocol keeps the invariant, and what follows for
    whole runs. */
module FlushSafety {
  import opened ByteCodec
  import opened Values
  import opened RecordLog
  import opened TornTail
  import opened FlushProtocol
  import opened FlushRuns

  // ---------------------------------------------------------------- steps that keep the documents

  lemma SinceSnapshotFrame(s: Store, t: Store, plain: map<Key, Doc>, st: FlushState, snap: map<Key, Doc>)
    requires s.entries.Keys == t.entries.Keys == plain.Keys && SinceSnapshot(s, plain, st, snap)
    requires forall k <- plain ::
      t.entries[k].mutGen == s.entries[k].mutGen && t.entries[k].dirty == s.entries[k].dirty
    requires t.pendingDels == s.pendingDels && t.dirtyGen >= s.dirtyGen && t.flushInProgress == s.flushInProgress
    ensures SinceSnapshot(t, plain, st, snap)
  {
    hide LastOp, KeepLater;
  }

  lemma ResidencyEntries(c: Codec, s: Store, log: seq<Rec>, plain: map<Key, Doc>, durable: map<Key, Doc>, k: Key,
      e: Entry)
    requires AllFit(log) && EntriesOk(c, s, log, plain, durable) && DelsOk(s, plain, durable) && QuietOk(s)
    requires k in plain && e == s.entries[k].(doc := e.doc)
    requires e.doc == Some(plain[k]) || (e.doc == None && !e.dirty)
    ensures var t := s.(entries := s.entries[k := e]);
            EntriesOk(c, t, log, plain, durable) && DelsOk(t, plain, durable) && QuietOk(t)
  {
    hide AllFit, DecodesAt;
  }

  /** Loading or evicting one document keeps the invariant. */
  lemma ResidencyKeeps(c: Codec, r: Run, k: Key, e: Entry)
    requires Inv(c, r) && k in r.plain && k in r.s.entries
    requires e == r.s.entries[k].(doc := e.doc)
    requires e.doc == Some(r.plain[k]) || (e.doc == None && !e.dirty)
    ensures Inv(c, WithEntry(r, k, e))
  {
    hide EntriesOk, DelsOk, QuietOk, LogOk, PlacesOk, BatchYields, AllFit, Inverse, SinceSnapshot;
    EntryKeys(c, r);
    ResidencyEntries(c, r.s, OffsetsLog(r), r.plain, r.durable, k, e);
    if !r.phase.Idle? {
      SinceSnapshotFrame(r.s, r.s.(entries := r.s.entries[k := e]), r.plain, r.phase.st, r.phase.snap);
    }
  }

  predicate SameButSchema(s: Store, t: Store)
  {
    && t == s.(dirty := t.dirty, dirtyGen := t.dirtyGen, colls := t.colls, compactForce := t.compactForce)
    && t.dirtyGen >= s.dirtyGen && (t.dirty || (t.dirty == s.dirty))
  }

  lemma SchemaEntries(c: Codec, s: Store, t: Store, log: seq<Rec>, plain: map<Key, Doc>, durable: map<Key, Doc>)
    requires AllFit(log) && EntriesOk(c, s, log, plain, durable) && DelsOk(s, plain, durable) && QuietOk(s)
    requires SameButSchema(s, t) && forall k <- plain :: k.coll in t.colls
    ensures EntriesOk(c, t, log, plain, durable) && DelsOk(t, plain, durable) && QuietOk(t)
  {
    hide AllFit, DecodesAt;
  }

  /** Schema changes and forced compactions only mark the store dirty. */
  lemma SchemaKeeps(c: Codec, r: Run, t: Store)
    requires Inv(c, r) && SameButSchema(r.s, t)
    requires forall k <- r.plain :: k.coll in t.colls
    ensures Inv(c, r.(s := t))
  {
    hide EntriesOk, DelsOk, QuietOk, LogOk, PlacesOk, BatchYields, AllFit, Inverse, SinceSnapshot;
    EntryKeys(c, r);
    SchemaEntries(c, r.s, t, OffsetsLog(r), r.plain, r.durable);
    if !r.phase.Idle? {
      SinceSnapshotFrame(r.s, t, r.plain, r.phase.st, r.phase.snap);
    }
  }

  // ---------------------------------------------------------------- snapshot

  lemma {:induction false} StagedDocs(c: Codec, r: Run, ks: seq<Key>, full: bool)
    requires Inv(c, r) && ReadsSafe(r) && forall i | 0 <= i < |ks| :: ks[i] in r.s.entries
    ensures StageDocs(c, r.s, ks, full).Some?
    ensures var docs := StageDocs(c, r.s, ks, full).value;
            && (forall i | 0 <= i < |docs| :: docs[i].DocOp?)
            && (forall k: Key :: LastOp(docs, k)
                  == if k in ks && (full || r.s.entries[k].dirty) then Stores(r.plain[k]) else Untouched)
  {
    hide Inv, ReadEntry, LastOp;
    EntryKeys(c, r);
    NoLastOp();
    if ks != [] {
      var n := |ks| - 1;
      StagedDocs(c, r, ks[..n], full);
      ReadRefines(c, r, ks[n]);
      var front := StageDocs(c, r.s, ks[..n], full).value;
      forall k: Key
        ensures LastOp(front + [DocOp(ks[n], r.plain[ks[n]])], k)
                == if k == ks[n] then Stores(r.plain[ks[n]]) else LastOp(front, k)
      {
        LastDocOp(front, ks[n], r.plain[ks[n]], k);
      }
      assert forall k: Key :: k in ks <==> k in ks[..n] || k == ks[n];
    }
  }

  lemma NoLastOp()
    ensures forall k: Key :: LastOp([], k) == Untouched
  {
  }

  lemma LastDocOp(front: seq<Op>, key: Key, d: Doc, k: Key)
    ensures LastOp(front + [DocOp(key, d)], k) == if k == key then Stores(d) else LastOp(front, k)
  {
    assert (front + [DocOp(key, d)])[..|front|] == front;
  }

  lemma PreparedOps(c: Codec, r: Run, ks: seq<Key>, idx: seq<Op>, s: Store, st: FlushState)
    requires FileOk(r.s) && Lists(ks, r.s.entries.Keys)
    requires PrepareFlush(c, r.s, ks, idx) == Ready(s, st)
    ensures StageDocs(c, r.s, ks, st.full).Some?
    ensures st.dels == (if st.full then [] else r.s.pendingDels)
    ensures st.ops == OrderOps(st.dels, StageDocs(c, r.s, ks, st.full).value, r.s.colls, idx)
  {
    hide StageDocs, OrderOps, Loaded;
  }

  lemma SnapshotYieldsAt(c: Codec, r: Run, docs: OpAction, full: bool, dels: seq<DelItem>, k: Key)
    requires Inv(c, r) && r.s.entries.Keys == r.plain.Keys
    requires docs == if k in r.plain && (full || r.s.entries[k].dirty) then Stores(r.plain[k]) else Untouched
    requires dels == if full then [] else r.s.pendingDels
    ensures var op := if docs != Untouched then docs else if Pending(dels, k) then Drops else Untouched;
            DiskAfter(op, full, Get(r.durable, k)) == Get(r.plain, k)
  {
    hide LogOk, Inverse, DecodesAt, FileOk, FlagsOk, PhaseOk, QuietOk;
  }

  lemma SnapshotYields(c: Codec, r: Run, ks: seq<Key>, idx: seq<Op>, s: Store, st: FlushState)
    requires Inv(c, r) && r.phase.Idle? && FileOk(r.s) && Lists(ks, r.s.entries.Keys) && AllIdx(idx)
    requires r.s.entries.Keys == r.plain.Keys
    requires forall k <- r.plain :: k.coll in r.s.colls
    requires PrepareFlush(c, r.s, ks, idx) == Ready(s, st)
    ensures BatchYields(c, r.durable, st, r.plain)
    ensures forall k <- r.plain :: (st.full || r.s.entries[k].dirty) ==> LastOp(st.ops, k).Stores?
  {
    hide Inv, PrepareFlush, LastOp, OrderOps, StageDocs, FileOk;
    var full := st.full;
    StagedDocs(c, r, ks, full);
    PreparedOps(c, r, ks, idx, s, st);
    var docs := StageDocs(c, r.s, ks, full).value;
    forall k: Key
      ensures DiskAfter(LastOp(st.ops, k), full, Get(r.durable, k)) == Get(r.plain, k)
      ensures k in r.plain && (full || r.s.entries[k].dirty) ==> LastOp(st.ops, k).Stores?
    {
      LastOpOrdered(st.dels, docs, r.s.colls, idx, k);
      SnapshotYieldsAt(c, r, LastOp(docs, k), full, st.dels, k);
    }
  }

  lemma {:induction false} KeepLaterNone(dels: seq<DelItem>, gen: nat)
    requires forall i | 0 <= i < |dels| :: dels[i].gen <= gen
    ensures KeepLater(dels, gen) == []
  {
    if dels != [] { KeepLaterNone(dels[..|dels| - 1], gen); }
  }

  lemma LoadedIs(c: Codec, r: Run, k: Key)
    requires Inv(c, r) && ReadsSafe(r) && k in r.plain && k in r.s.entries
    ensures Loaded(c, r.s, r.s.entries[k]) == r.s.entries[k].(doc := Some(r.plain[k]))
  {
    hide Inv;
    ReadRefines(c, r, k);
  }

  /** The entries after a snapshot: what was staged is resident, nothing else changes. */
  lemma PreparedStore(c: Codec, r: Run, ks: seq<Key>, idx: seq<Op>, s: Store, st: FlushState)
    requires Inv(c, r) && r.phase.Idle? && Lists(ks, r.s.entries.Keys)
    requires PrepareFlush(c, r.s, ks, idx) == Ready(s, st)
    ensures s == r.s.(entries := s.entries, flushInProgress := true, compactForce := false)
    ensures s.entries.Keys == r.plain.Keys == r.s.entries.Keys
    ensures forall k <- r.plain ::
      s.entries[k] == r.s.entries[k] || s.entries[k] == r.s.entries[k].(doc := Some(r.plain[k]))
    ensures st.gen == r.s.dirtyGen && (!st.full ==> st.dels == r.s.pendingDels)
  {
    hide Inv, Loaded, StageDocs, OrderOps;
    EntryKeys(c, r);
    forall k <- r.plain
      ensures Loaded(c, r.s, r.s.entries[k]) == r.s.entries[k].(doc := Some(r.plain[k]))
    {
      LoadedIs(c, r, k);
    }
  }

  lemma PreparedEntries(c: Codec, s: Store, t: Store, log: seq<Rec>, plain: map<Key, Doc>, durable: map<Key, Doc>)
    requires AllFit(log) && EntriesOk(c, s, log, plain, durable) && DelsOk(s, plain, durable) && QuietOk(s)
    requires t == s.(entries := t.entries, flushInProgress := true, compactForce := false)
    requires t.entries.Keys == plain.Keys
    requires forall k <- plain ::
      t.entries[k] == s.entries[k] || t.entries[k] == s.entries[k].(doc := Some(plain[k]))
    ensures EntriesOk(c, t, log, plain, durable) && DelsOk(t, plain, durable) && QuietOk(t)
    ensures SinceSnapshotBase(t, plain, s.dirtyGen)
  {
    hide AllFit, DecodesAt;
  }

  ghost predicate SinceSnapshotBase(t: Store, plain: map<Key, Doc>, gen: nat)
    requires t.entries.Keys == plain.Keys
  {
    && (forall k <- plain :: t.entries[k].mutGen <= gen)
    && (forall i | 0 <= i < |t.pendingDels| :: t.pendingDels[i].gen <= gen)
  }

  /** Step one keeps the invariant: the staged batch would make the file hold the
      memory map of this moment. */
  lemma SnapshotKeeps(c: Codec, r: Run, ks: seq<Key>, idx: seq<Op>)
    requires Inv(c, r) && r.phase.Idle? && Lists(ks, r.s.entries.Keys) && AllIdx(idx)
    ensures FileOk(r.s) && Inv(c, AfterSnapshot(c, r, ks, idx))
  {
    hide EntriesOk, DelsOk, QuietOk, LogOk, PlacesOk, BatchYields, AllFit, Inverse, PrepareFlush, SinceSnapshot;
    var p := PrepareFlush(c, r.s, ks, idx);
    NoReadError(c, r, ks, idx);
    if p.Ready? {
      PreparedStore(c, r, ks, idx, p.s, p.st);
      PreparedEntries(c, r.s, p.s, r.s.log, r.plain, r.durable);
      CollsCover(c, r);
      SnapshotYields(c, r, ks, idx, p.s, p.st);
      FreshSnapshot(r.s, p.s, r.plain, p.st);
    }
  }

  /** A store that keeps the invariant can always be staged. */
  lemma NoReadError(c: Codec, r: Run, ks: seq<Key>, idx: seq<Op>)
    requires Inv(c, r) && r.phase.Idle? && FileOk(r.s) && Lists(ks, r.s.entries.Keys)
    ensures !PrepareFlush(c, r.s, ks, idx).ReadError?
  {
    hide Inv, StageDocs, Loaded, OrderOps;
    StagedDocs(c, r, ks, !r.s.sawFile || r.s.compactForce);
  }

  lemma CollsCover(c: Codec, r: Run)
    requires Inv(c, r)
    ensures forall k <- r.plain :: k.coll in r.s.colls
  {
  }

  lemma FreshSnapshot(s: Store, t: Store, plain: map<Key, Doc>, st: FlushState)
    requires s.entries.Keys == t.entries.Keys == plain.Keys && SinceSnapshotBase(t, plain, st.gen)
    requires t.flushInProgress && st.gen == t.dirtyGen && t.pendingDels == s.pendingDels
    requires !st.full ==> st.dels == t.pendingDels
    requires forall k <- plain :: t.entries[k].dirty == s.entries[k].dirty
    requires forall k <- plain :: (st.full || s.entries[k].dirty) ==> LastOp(st.ops, k).Stores?
    ensures SinceSnapshot(t, plain, st, plain)
  {
    hide LastOp;
    KeepLaterNone(t.pendingDels, st.gen);
  }

  // ---------------------------------------------------------------- write

  lemma {:induction false} MetaAt(c: Codec, rs: seq<Rec>, i: nat)
    requires i < |rs| && rs[i].typ == REC_META
    requires forall j | i < j < |rs| :: rs[j].typ != REC_META
    ensures MetaOf(c, rs) == c.openMeta(rs[i].flags, rs[i].nonce, rs[i].ct)
  {
    if i < |rs| - 1 { MetaAt(c, rs[..|rs| - 1], i); }
  }

  lemma EncodedDecodes(c: Codec, op: Op, nonce: Bytes)
    requires Inverse(c) && EncodeOp(c, op, nonce).Fits()
    ensures RecDecodable(c, EncodeOp(c, op, nonce))
  {
    hide DecodeIDBlob, EncodeIDBlob;
    match op
    case DelOp(k) => FittingBlob(k);
    case DocOp(k, _) => FittingBlob(k);
    case IdxOp(coll, _) => FittingBlob(Key(coll, []));
    case _ =>
  }

  /** A batch commits once, at its end, and lists its collections. */
  lemma BatchMeta(c: Codec, dels: seq<DelItem>, docs: seq<Op>, colls: set<Bytes>, idx: seq<Op>, nonces: seq<Bytes>)
    requires Inverse(c) && AllIdx(idx) && forall i | 0 <= i < |docs| :: docs[i].DocOp?
    requires var ops := OrderOps(dels, docs, colls, idx);
             |nonces| == |ops| && AllFit(EncodeAll(c, ops, nonces))
    ensures var rs := EncodeAll(c, OrderOps(dels, docs, colls, idx), nonces);
            && IsBatch(rs) && HasMeta(rs) && MetaOf(c, rs) == Some(colls)
  {
    hide EncodeIDBlob, DecodeIDBlob;
    var ops := OrderOps(dels, docs, colls, idx);
    var rs := EncodeAll(c, ops, nonces);
    var m := |dels| + |docs|;
    assert ops[m] == MetaOp(colls) && ops[|ops| - 1] == CommitOp;
    assert forall j | m < j < |ops| - 1 :: ops[j] == idx[j - m - 1];
    assert rs[m].typ == REC_META;
    MetaAt(c, rs, m);
  }

  lemma EncodedReadable(c: Codec, ops: seq<Op>, nonces: seq<Bytes>)
    requires Inverse(c) && |nonces| == |ops| && AllFit(EncodeAll(c, ops, nonces))
    ensures Readable(c, EncodeAll(c, ops, nonces))
  {
    hide EncodeOp, RecDecodable, Inverse;
    var rs := EncodeAll(c, ops, nonces);
    forall i | 0 <= i < |rs|
      ensures RecDecodable(c, rs[i])
    {
      assert rs[i] == EncodeOp(c, ops[i], nonces[i]) && rs[i].Fits();
      EncodedDecodes(c, ops[i], nonces[i]);
    }
  }

  predicate DocsLast(ops: seq<Op>)
  {
    forall i, j | 0 <= i < j < |ops| :: ops[i].DocOp? ==> !ops[j].DelOp?
  }

  /** What the records say of one key. */
  ghost predicate HoldsAt(c: Codec, log: seq<Rec>, k: Key, d: Option<Doc>)
  {
    (k in Contents(map[], log) <==> d.Some?) && (d.Some? ==> OnDisk(c, log, k) == d)
  }

  lemma HoldsByKey(c: Codec, log: seq<Rec>, docs: map<Key, Doc>)
    ensures Holds(c, log, docs) <==> forall k: Key :: HoldsAt(c, log, k, Get(docs, k))
  {
    hide Contents, OnDisk;
    if forall k: Key :: HoldsAt(c, log, k, Get(docs, k)) {
      forall k: Key
        ensures k in Contents(map[], log) <==> k in docs
        ensures k in docs ==> OnDisk(c, log, k) == Some(docs[k])
      {
        assert HoldsAt(c, log, k, Get(docs, k));
      }
    }
  }

  lemma BatchHoldsAt(c: Codec, base: seq<Rec>, ops: seq<Op>, nonces: seq<Bytes>, k: Key, was: Option<Doc>)
    requires Inverse(c) && |nonces| == |ops| && AllFit(EncodeAll(c, ops, nonces))
    requires HoldsAt(c, base, k, was)
    ensures HoldsAt(c, base + EncodeAll(c, ops, nonces), k, DiskAfter(LastOp(ops, k), false, was))
  {
    hide EncodeAll, LastOp, Contents, Inverse, AllFit, OnDisk;
    BatchOnDisk(c, base, ops, nonces, k);
  }

  lemma BatchHolds(c: Codec, base: seq<Rec>, was: map<Key, Doc>, ops: seq<Op>, nonces: seq<Bytes>, snap: map<Key, Doc>)
    requires Holds(c, base, was) && Inverse(c)
    requires |nonces| == |ops| && AllFit(EncodeAll(c, ops, nonces))
    requires forall k: Key :: Get(snap, k) == DiskAfter(LastOp(ops, k), false, Get(was, k))
    ensures Holds(c, base + EncodeAll(c, ops, nonces), snap)
  {
    hide EncodeAll, LastOp, Inverse, AllFit, DiskAfter, Holds, HoldsAt;
    var rs := EncodeAll(c, ops, nonces);
    HoldsByKey(c, base, was);
    HoldsByKey(c, base + rs, snap);
    forall k: Key
      ensures HoldsAt(c, base + rs, k, Get(snap, k))
    {
      BatchHoldsAt(c, base, ops, nonces, k, Get(was, k));
      assert Get(snap, k) == DiskAfter(LastOp(ops, k), false, Get(was, k));
    }
  }

  /** The log after a batch holds exactly the snapshot, records left behind by a
      torn append included. */
  lemma {:induction false} BatchLogOk(c: Codec, base: seq<Rec>, was: map<Key, Doc>, ops: seq<Op>,
      nonces: seq<Bytes>, snap: map<Key, Doc>)
    requires AllFit(base) && LogOk(c, base, was) && Inverse(c)
    requires |nonces| == |ops| && AllFit(EncodeAll(c, ops, nonces)) && IsOrdered(ops, snap)
    requires forall k: Key :: Get(snap, k) == DiskAfter(LastOp(ops, k), false, Get(was, k))
    ensures AllFit(base + EncodeAll(c, ops, nonces))
    ensures LogOk(c, base + EncodeAll(c, ops, nonces), snap) && IsBatch(EncodeAll(c, ops, nonces))
    ensures DocsLast(ops)
  {
    hide EncodeAll, LastOp, MetaOf, Readable, Holds, Inverse, IsOrdered, DocsLast, Sealed;
    var rs := EncodeAll(c, ops, nonces);
    BatchHolds(c, base, was, ops, nonces, snap);
    OrderedBatch(c, ops, nonces, snap);
    EncodedReadable(c, ops, nonces);
    ReadableAppend(c, base, rs);
    MetaAppend(c, base, rs);
    SealedAppend(base, rs);
  }

  lemma OrderedBatch(c: Codec, ops: seq<Op>, nonces: seq<Bytes>, snap: map<Key, Doc>)
    requires Inverse(c)
    requires |nonces| == |ops| && AllFit(EncodeAll(c, ops, nonces)) && IsOrdered(ops, snap)
    ensures var rs := EncodeAll(c, ops, nonces);
            IsBatch(rs) && HasMeta(rs) && DocsLast(ops) && Covers(MetaOf(c, rs), snap)
  {
    hide EncodeAll, MetaOf, OrderOps, Inverse, DocsLast, EndsInCommit, IsBatch, HasMeta;
    var dels, docs: seq<Op>, colls, idx :|
      && ops == OrderOps(dels, docs, colls, idx) && AllIdx(idx)
      && (forall i | 0 <= i < |docs| :: docs[i].DocOp?)
      && (forall k <- snap :: k.coll in colls);
    BatchMeta(c, dels, docs, colls, idx, nonces);
    OrderedDocsLast(dels, docs, colls, idx);
  }

  lemma OrderedDocsLast(dels: seq<DelItem>, docs: seq<Op>, colls: set<Bytes>, idx: seq<Op>)
    requires AllIdx(idx) && forall i | 0 <= i < |docs| :: docs[i].DocOp?
    ensures DocsLast(OrderOps(dels, docs, colls, idx))
  {
    var ops := OrderOps(dels, docs, colls, idx);
    forall j | |dels| <= j < |ops|
      ensures !ops[j].DelOp?
    {
      var m := |dels| + |docs|;
      if j < m {
        assert ops[j] == docs[j - |dels|];
      } else if m < j < |ops| - 1 {
        assert ops[j] == idx[j - m - 1];
      }
    }
  }

  // ---------------------------------------------------------------- offsets of what was written

  /** The key's last document operation, and the place recorded for it. */
  lemma {:induction false} OffsetForLast(ops: seq<Op>, places: seq<Placed>, k: Key) returns (i: nat)
    requires |ops| == |places| && DocsLast(ops)
    ensures OffsetFor(ops, places, k).Some? <==> LastOp(ops, k).Stores?
    ensures OffsetFor(ops, places, k).Some? ==>
      && i < |ops| && ops[i] == DocOp(k, LastOp(ops, k).doc) && OffsetFor(ops, places, k) == Some(places[i])
  {
    i := 0;
    if ops != [] {
      var n := |ops| - 1;
      if ops[n].DocOp? && ops[n].key == k {
        i := n;
      } else {
        i := OffsetForLast(ops[..n], places[..n], k);
      }
    }
  }

  lemma BatchPlaces(c: Codec, base: seq<Rec>, st: FlushState, nonces: seq<Bytes>, snap: map<Key, Doc>)
    requires AllFit(base) && Inverse(c) && |nonces| == |st.ops| && AllFit(EncodeAll(c, st.ops, nonces))
    requires DocsLast(st.ops)
    requires forall k: Key :: LastOp(st.ops, k).Stores? ==> Get(snap, k) == Some(LastOp(st.ops, k).doc)
    ensures AllFit(base + EncodeAll(c, st.ops, nonces))
    ensures PlacesOk(c, base + EncodeAll(c, st.ops, nonces), st,
                     Place(c.crc, EncodeAll(c, st.ops, nonces), HEADER_SIZE + |Layout(c.crc, base)|), snap)
  {
    hide LastOp, Layout, Place, OffsetFor, EncodeIDBlob;
    var rs := EncodeAll(c, st.ops, nonces);
    var places := Place(c.crc, rs, HEADER_SIZE + |Layout(c.crc, base)|);
    PlaceAppend(c.crc, base, rs, HEADER_SIZE);
    forall k: Key
      ensures OffsetFor(st.ops, places, k).Some? <==> LastOp(st.ops, k).Stores?
      ensures OffsetFor(st.ops, places, k).Some? && k in snap ==>
                var p := OffsetFor(st.ops, places, k).value;
                DecodesAt(c, base + rs, p.off, p.len, snap[k])
    {
      var i := OffsetForLast(st.ops, places, k);
      if OffsetFor(st.ops, places, k).Some? {
        var d := LastOp(st.ops, k).doc;
        assert rs[i] == EncodeOp(c, DocOp(k, d), nonces[i]);
        assert RecordIs(c, base + rs, |base| + i, places[i].off, places[i].len, d);
      }
    }
  }

  lemma {:induction false} DecodesAtAppend(c: Codec, log: seq<Rec>, more: seq<Rec>, off: int, len: int, d: Doc)
    requires AllFit(log) && AllFit(more) && AllFit(log + more) && DecodesAt(c, log, off, len, d)
    ensures DecodesAt(c, log + more, off, len, d)
  {
    hide Place, Layout;
    var i :| 0 <= i < |log| && RecordIs(c, log, i, off, len, d);
    PlaceAppend(c.crc, log, more, HEADER_SIZE);
    assert RecordIs(c, log + more, i, off, len, d);
  }

  /** Clean slots survive a write: their documents are in the snapshot, and an
      append leaves the records they point at where they were. */
  lemma WriteEntries(c: Codec, s: Store, log: seq<Rec>, more: seq<Rec>, plain: map<Key, Doc>,
                     durable: map<Key, Doc>, st: FlushState, snap: map<Key, Doc>)
    requires AllFit(log) && AllFit(more) && AllFit(log + more)
    requires EntriesOk(c, s, log, plain, durable) && DelsOk(s, plain, durable)
    requires SinceSnapshot(s, plain, st, snap)
    ensures EntriesOk(c, s, log + more, plain, snap) && EntriesOk(c, s, log, plain, snap)
    ensures DelsOk(s, plain, snap)
  {
    hide AllFit, DecodesAt, LastOp;
    forall k <- plain | !s.entries[k].dirty
      ensures DecodesAt(c, log + more, s.entries[k].recOff, s.entries[k].recLen, plain[k])
    {
      DecodesAtAppend(c, log, more, s.entries[k].recOff, s.entries[k].recLen, plain[k]);
    }
    forall k <- snap | k !in plain
      ensures Pending(s.pendingDels, k)
    {
      LaterIsPending(s.pendingDels, st.gen, k);
    }
  }

  lemma {:induction false} LaterIsPending(dels: seq<DelItem>, gen: nat, k: Key)
    requires Pending(KeepLater(dels, gen), k)
    ensures Pending(dels, k)
  {
    if dels != [] {
      var n := |dels| - 1;
      assert dels[..n] + [dels[n]] == dels;
      KeepLaterSnoc(dels[..n], dels[n], gen);
      if dels[n].key != k {
        if dels[n].gen > gen { PendingSnoc(KeepLater(dels[..n], gen), dels[n], k); }
        LaterIsPending(dels[..n], gen, k);
      }
      PendingSnoc(dels[..n], dels[n], k);
    }
  }

  lemma {:induction false} WriteFits(c: Codec, r: Run, nonces: seq<Bytes>, header: Bytes)
    requires Inv(c, r) && r.phase.Snapped? && FileOk(r.s)
    requires |nonces| == |r.phase.st.ops| && |header| == HEADER_SIZE
    requires WriteState(c, r.s, r.phase.st, nonces, header).Wrote?
    ensures var st, snap := r.phase.st, r.phase.snap;
            var rs := EncodeAll(c, st.ops, nonces);
            var out := WriteState(c, r.s, st, nonces, header);
            && AllFit(rs) && AllFit(r.s.log + rs) && rs != []
            && AllFit(out.s.log)
            && LogOk(c, out.s.log, snap) && PlacesOk(c, out.s.log, st, out.places, snap)
            && out.s == r.s.(header := out.s.header, log := out.s.log) && |out.s.header| == HEADER_SIZE
            && out.s.log == if st.full then rs else r.s.log + rs
  {
    hide EntriesOk, DelsOk, QuietOk, LogOk, PlacesOk, EncodeAll, Inverse, SinceSnapshot, IsOrdered, LastOp, Layout, Place;
    var st, snap := r.phase.st, r.phase.snap;
    var rs := EncodeAll(c, st.ops, nonces);
    var base := if st.full then [] else r.s.log;
    EmptyLogOk(c);
    BatchLogOk(c, base, if st.full then map[] else r.durable, st.ops, nonces, snap);
    assert forall k: Key :: Get(snap, k) == DiskAfter(LastOp(st.ops, k), st.full, Get(r.durable, k));
    BatchPlaces(c, base, st, nonces, snap);
    assert [] + rs == rs;
    assert |Layout(c.crc, [])| == 0 by { EmptyLayout(c.crc); }
  }

  lemma EmptyLogOk(c: Codec)
    ensures LogOk(c, [], map[])
  {
  }

  /** Step two keeps the invariant, whether it writes, fails, appends or rewrites. */
  lemma {:induction false} WriteKeeps(c: Codec, r: Run, nonces: seq<Bytes>, header: Bytes)
    requires Inv(c, r) && r.phase.Snapped? && |nonces| == |r.phase.st.ops| && |header| == HEADER_SIZE
    ensures FileOk(r.s) && Inv(c, AfterWrite(c, r, nonces, header))
  {
    hide Inv, EncodeAll, Layout, Place, AllFit;
    EntryKeys(c, r);
    var out := WriteState(c, r.s, r.phase.st, nonces, header);
    if out.WriteFailed? {
      FailedInv(c, r);
    } else {
      WroteKeeps(c, r, nonces, header, out.s, out.places);
    }
  }

  lemma {:induction false} WroteKeeps(c: Codec, r: Run, nonces: seq<Bytes>, header: Bytes, t: Store, places: seq<Placed>)
    requires Inv(c, r) && r.phase.Snapped? && |nonces| == |r.phase.st.ops| && |header| == HEADER_SIZE
    requires FileOk(r.s) && r.s.entries.Keys == r.plain.Keys
    requires WriteState(c, r.s, r.phase.st, nonces, header) == Wrote(t, places)
    ensures Inv(c, r.(s := t, phase := Written(r.phase.st, r.phase.snap, places, r.s.log), durable := r.phase.snap))
  {
    hide Inv, LogOk, PlacesOk, EntriesOk, DelsOk, SinceSnapshot, EncodeAll, Layout, Place, AllFit, FileOk, BatchYields;
    var st, snap := r.phase.st, r.phase.snap;
    var rs := EncodeAll(c, st.ops, nonces);
    WriteFits(c, r, nonces, header);
    SnapshotOf(c, r);
    WriteEntries(c, r.s, r.s.log, rs, r.plain, r.durable, st, snap);
    FullStores(c, r);
    WrittenInv(c, r, t, places, rs);
  }

  lemma SnapshotOf(c: Codec, r: Run)
    requires Inv(c, r) && r.phase.Snapped? && r.s.entries.Keys == r.plain.Keys
    ensures AllFit(r.s.log) && EntriesOk(c, r.s, r.s.log, r.plain, r.durable) && DelsOk(r.s, r.plain, r.durable)
    ensures SinceSnapshot(r.s, r.plain, r.phase.st, r.phase.snap)
  {
  }

  lemma FailedInv(c: Codec, r: Run)
    requires Inv(c, r) && r.phase.Snapped?
    ensures Inv(c, r.(s := r.s.(flushInProgress := false), phase := Idle))
  {
    hide LogOk, PlacesOk, BatchYields, AllFit, Inverse, SinceSnapshot, DecodesAt;
  }

  lemma FullStores(c: Codec, r: Run)
    requires Inv(c, r) && r.phase.Snapped?
    ensures r.phase.st.full ==> forall k <- r.phase.snap :: LastOp(r.phase.st.ops, k).Stores?
  {
    hide LogOk, AllFit, Inverse, SinceSnapshot, DecodesAt, EntriesOk, DelsOk, QuietOk, LastOp, IsOrdered;
    var st, snap := r.phase.st, r.phase.snap;
    if st.full {
      forall k <- snap
        ensures LastOp(st.ops, k).Stores?
      {
        assert Get(snap, k) == DiskAfter(LastOp(st.ops, k), st.full, Get(r.durable, k));
      }
    }
  }

  lemma WrittenInv(c: Codec, r: Run, t: Store, places: seq<Placed>, rs: seq<Rec>)
    requires Inv(c, r) && r.phase.Snapped? && r.s.entries.Keys == r.plain.Keys
    requires t == r.s.(header := t.header, log := t.log) && |t.header| == HEADER_SIZE
    requires t.log == (if r.phase.st.full then rs else r.s.log + rs) && AllFit(t.log) && rs != []
    requires LogOk(c, t.log, r.phase.snap) && PlacesOk(c, t.log, r.phase.st, places, r.phase.snap)
    requires AllFit(r.s.log) && AllFit(r.s.log + rs)
    requires EntriesOk(c, r.s, if r.phase.st.full then r.s.log else r.s.log + rs, r.plain, r.phase.snap)
    requires DelsOk(r.s, r.plain, r.phase.snap)
    requires r.phase.st.full ==> forall k <- r.phase.snap :: LastOp(r.phase.st.ops, k).Stores?
    ensures Inv(c, r.(s := t, phase := Written(r.phase.st, r.phase.snap, places, r.s.log), durable := r.phase.snap))
  {
    hide LogOk, PlacesOk, BatchYields, AllFit, Inverse, EntriesOk, DelsOk, QuietOk, SinceSnapshot, LastOp;
    LogFrame(c, r.s, t, OffsetsLog(r.(s := t, phase := Written(r.phase.st, r.phase.snap, places, r.s.log))),
             r.plain, r.phase.st, r.phase.snap);
  }

  /** None of the slot invariants looks at the file itself. */
  lemma LogFrame(c: Codec, s: Store, t: Store, log: seq<Rec>, plain: map<Key, Doc>, st: FlushState, snap: map<Key, Doc>)
    requires t == s.(header := t.header, log := t.log) && AllFit(log) && s.entries.Keys == plain.Keys
    ensures EntriesOk(c, s, log, plain, snap) ==> EntriesOk(c, t, log, plain, snap)
    ensures DelsOk(s, plain, snap) ==> DelsOk(t, plain, snap)
    ensures QuietOk(s) ==> QuietOk(t)
    ensures SinceSnapshot(s, plain, st, snap) ==> SinceSnapshot(t, plain, st, snap)
  {
    hide AllFit, DecodesAt, LastOp, KeepLater;
  }
}
