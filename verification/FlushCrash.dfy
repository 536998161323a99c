/** The last step of a flush, crashes, and the theorems about whole runs. */
module FlushCrash {
  import opened ByteCodec
  import opened Values
  import opened RecordLog
  import opened TornTail
  import opened FlushProtocol
  import opened FlushRuns
  import opened FlushSafety

  // ---------------------------------------------------------------- reconcile

  lemma {:induction false} KeptIsLater(dels: seq<DelItem>, gen: nat, i: nat)
    requires i < |KeepLater(dels, gen)|
    ensures KeepLater(dels, gen)[i].gen > gen
    ensures exists j | 0 <= j < |dels| :: dels[j] == KeepLater(dels, gen)[i]
  {
    var n := |dels| - 1;
    var front := KeepLater(dels[..n], gen);
    if i < |front| {
      KeptIsLater(dels[..n], gen, i);
      var j :| 0 <= j < n && dels[..n][j] == front[i];
      assert dels[j] == front[i];
    }
  }

  function RemainingDels(s: Store, st: FlushState): seq<DelItem>
  {
    if st.full then [] else if st.dels == [] then s.pendingDels else KeepLater(s.pendingDels, st.gen)
  }

  /** No clean key has a deletion left in the queue after reconciling. */
  lemma RemainingAreLater(s: Store, plain: map<Key, Doc>, durable: map<Key, Doc>, st: FlushState, snap: map<Key, Doc>)
    requires s.entries.Keys == plain.Keys && DelsOk(s, plain, durable) && SinceSnapshot(s, plain, st, snap)
    ensures forall i | 0 <= i < |RemainingDels(s, st)| ::
      var d := RemainingDels(s, st)[i];
      st.gen < d.gen <= s.dirtyGen && (d.key in plain ==> s.entries[d.key].mutGen > d.gen)
    ensures st.gen == s.dirtyGen ==> RemainingDels(s, st) == []
  {
    hide LastOp, KeepLater;
    if st.gen == s.dirtyGen { KeepLaterNone(s.pendingDels, st.gen); }
    forall i | 0 <= i < |RemainingDels(s, st)|
      ensures var d := RemainingDels(s, st)[i];
              st.gen < d.gen <= s.dirtyGen && (d.key in plain ==> s.entries[d.key].mutGen > d.gen)
    {
      KeptIsLater(s.pendingDels, st.gen, i);
    }
  }

  lemma SettledEntry(c: Codec, log: seq<Rec>, olog: seq<Rec>, s: Store, plain: map<Key, Doc>, st: FlushState,
                     snap: map<Key, Doc>, places: seq<Placed>, k: Key)
    requires AllFit(log) && AllFit(olog) && s.entries.Keys == plain.Keys && k in plain
    requires EntriesOk(c, s, olog, plain, snap) && DelsOk(s, plain, snap) && SinceSnapshot(s, plain, st, snap)
    requires PlacesOk(c, log, st, places, snap)
    requires st.full ==> forall k <- snap :: LastOp(st.ops, k).Stores?
    requires !st.full ==> olog == log
    ensures var t := ApplyFlushed(s, st, places);
            EntryOk(c, log, t.entries[k], plain[k], Get(snap, k), Pending(t.pendingDels, k), t.dirtyGen)
  {
    RemainingAreLater(s, plain, snap, st, snap);
    hide AllFit, DecodesAt, LastOp, OffsetFor, KeepLater, DelsOk;
    var t := ApplyFlushed(s, st, places);
    assert t.pendingDels == RemainingDels(s, st);
    if s.entries[k].mutGen <= st.gen {
      assert !Pending(t.pendingDels, k);
      assert Get(snap, k) == Some(plain[k]);
    }
  }

  lemma SettledQuiet(s: Store, plain: map<Key, Doc>, st: FlushState, snap: map<Key, Doc>, places: seq<Placed>)
    requires s.entries.Keys == plain.Keys && |places| == |st.ops|
    requires QuietOk(s) && DelsOk(s, plain, snap) && SinceSnapshot(s, plain, st, snap)
    requires forall k: Key :: OffsetFor(st.ops, places, k).Some? <==> LastOp(st.ops, k).Stores?
    requires forall k <- plain :: s.entries[k].mutGen <= s.dirtyGen
    ensures QuietOk(ApplyFlushed(s, st, places))
  {
    RemainingAreLater(s, plain, snap, st, snap);
    hide LastOp, OffsetFor, KeepLater, DelsOk;
    var t := ApplyFlushed(s, st, places);
    assert t.pendingDels == RemainingDels(s, st);
    if !s.dirty { assert KeepLater([], st.gen) == [] by { KeepLaterNone([], st.gen); } }
  }

  lemma SettledDels(s: Store, plain: map<Key, Doc>, st: FlushState, snap: map<Key, Doc>, places: seq<Placed>)
    requires s.entries.Keys == plain.Keys && |places| == |st.ops|
    requires DelsOk(s, plain, snap) && SinceSnapshot(s, plain, st, snap)
    requires st.full ==> snap.Keys <= plain.Keys
    ensures DelsOk(ApplyFlushed(s, st, places), plain, snap)
  {
    RemainingAreLater(s, plain, snap, st, snap);
    hide LastOp, OffsetFor, KeepLater;
    assert ApplyFlushed(s, st, places).pendingDels == RemainingDels(s, st);
  }

  lemma WrittenFacts(c: Codec, r: Run)
    requires Inv(c, r) && r.phase.Written?
    ensures r.s.entries.Keys == r.plain.Keys && AllFit(r.s.log) && AllFit(OffsetsLog(r)) && r.durable == r.phase.snap
    ensures EntriesOk(c, r.s, OffsetsLog(r), r.plain, r.durable) && DelsOk(r.s, r.plain, r.durable) && QuietOk(r.s)
    ensures SinceSnapshot(r.s, r.plain, r.phase.st, r.phase.snap)
    ensures PlacesOk(c, r.s.log, r.phase.st, r.phase.places, r.phase.snap)
    ensures r.phase.st.full ==> forall k <- r.phase.snap :: LastOp(r.phase.st.ops, k).Stores?
    ensures forall k <- r.plain :: k.coll in r.s.colls && r.s.entries[k].mutGen <= r.s.dirtyGen
    ensures |r.phase.places| == |r.phase.st.ops| && r.s.log != []
    ensures forall k: Key ::
      OffsetFor(r.phase.st.ops, r.phase.places, k).Some? <==> LastOp(r.phase.st.ops, k).Stores?
  {
    hide AllFit, Inverse, LogOk, DecodesAt, LastOp, OffsetFor, SinceSnapshot, QuietOk;
  }

  lemma ReconcileKeeps(c: Codec, r: Run)
    requires Inv(c, r) && r.phase.Written? && |r.phase.places| == |r.phase.st.ops|
    requires r.phase.st.full ==> r.phase.snap.Keys <= r.plain.Keys
    ensures Inv(c, Reconciled(r))
  {
    SettledStore(c, r);
    WrittenFacts(c, r);
    hide EntriesOk, DelsOk, QuietOk, LogOk, PlacesOk, AllFit, Inverse, SinceSnapshot, Settled, OffsetFor, LastOp,
        KeepLater;
  }

  lemma SettledStore(c: Codec, r: Run)
    requires Inv(c, r) && r.phase.Written? && |r.phase.places| == |r.phase.st.ops|
    requires r.phase.st.full ==> r.phase.snap.Keys <= r.plain.Keys
    ensures r.s.entries.Keys == r.plain.Keys && AllFit(r.s.log)
    ensures var t := ApplyFlushed(r.s, r.phase.st, r.phase.places);
            EntriesOk(c, t, r.s.log, r.plain, r.phase.snap) && DelsOk(t, r.plain, r.phase.snap) && QuietOk(t)
  {
    hide Inv;
    WrittenFacts(c, r);
    var st, snap, places := r.phase.st, r.phase.snap, r.phase.places;
    var t := ApplyFlushed(r.s, st, places);
    forall k <- r.plain
      ensures EntryOk(c, r.s.log, t.entries[k], r.plain[k], Get(snap, k), Pending(t.pendingDels, k), t.dirtyGen)
    {
      SettledEntry(c, r.s.log, OffsetsLog(r), r.s, r.plain, st, snap, places, k);
    }
    SettledQuiet(r.s, r.plain, st, snap, places);
    SettledDels(r.s, r.plain, st, snap, places);
    SettledEntries(c, r.s.log, r.plain, snap, t);
  }

  lemma SettledEntries(c: Codec, log: seq<Rec>, plain: map<Key, Doc>, snap: map<Key, Doc>, t: Store)
    requires AllFit(log) && t.entries.Keys == plain.Keys
    requires forall k <- plain ::
      && k.coll in t.colls
      && EntryOk(c, log, t.entries[k], plain[k], Get(snap, k), Pending(t.pendingDels, k), t.dirtyGen)
    ensures EntriesOk(c, t, log, plain, snap)
  {
  }

  /** Reconciling an append always keeps the promise. Reconciling a full rewrite keeps
      it exactly when no document of the snapshot was deleted meanwhile: the rewrite
      drops the whole deletion queue, so such a document stays in the file with
      nothing left to remove it. */
  lemma ReconcileExact(c: Codec, r: Run)
    requires Inv(c, r) && r.phase.Written? && |r.phase.places| == |r.phase.st.ops|
    ensures Inv(c, Reconciled(r)) <==> (r.phase.st.full ==> r.phase.snap.Keys <= r.s.entries.Keys)
  {
    WrittenFacts(c, r);
    if r.phase.st.full ==> r.phase.snap.Keys <= r.s.entries.Keys {
      ReconcileKeeps(c, r);
    }
    if r.phase.st.full && Inv(c, Reconciled(r)) {
      StillQueued(c, Reconciled(r));
      assert Reconciled(r).s.pendingDels == [];
      assert forall k <- r.phase.snap :: k !in r.plain ==> Pending([], k);
    }
  }

  lemma StillQueued(c: Codec, r: Run)
    requires Inv(c, r)
    ensures forall k <- r.durable | k !in r.plain :: Pending(r.s.pendingDels, k)
  {
  }

  // ---------------------------------------------------------------- crash and reopen

  lemma {:induction false} ReplayedFrom(ps: seq<Placed>, k: Key) returns (i: nat)
    requires k in Replay(map[], ps)
    ensures i < |ps| && ps[i] == Replay(map[], ps)[k] && ps[i].rec.typ == REC_DOC
  {
    hide DecodeIDBlob;
    var n := |ps| - 1;
    if ps[n].rec.typ == REC_DOC && DecodeIDBlob(ps[n].rec.idBlob) == Some(k) {
      i := n;
    } else {
      i := ReplayedFrom(ps[..n], k);
    }
  }

  /** The placed records a recovery of this log yields. */
  function Survivors(c: Codec, log: seq<Rec>): map<Key, Placed>
    requires AllFit(log)
  {
    Replay(map[], Place(c.crc, log, HEADER_SIZE))
  }

  lemma SealedReadable(c: Codec, log: seq<Rec>)
    requires Readable(c, log)
    ensures Readable(c, Sealed(log))
  {
    hide Readable;
    assert log == Sealed(log) + log[CommittedLen(log)..];
    ReadableAppend(c, Sealed(log), log[CommittedLen(log)..]);
  }

  /** What is committed is the durable map, each document at its offset. */
  lemma CommittedIsDurable(c: Codec, log: seq<Rec>, durable: map<Key, Doc>)
    requires AllFit(log) && LogOk(c, log, durable) && log != []
    ensures AllFit(Sealed(log)) && Committed(c, Sealed(log)) == Docs(Survivors(c, Sealed(log)), MetaOf(c, Sealed(log)))
    ensures Covers(MetaOf(c, Sealed(log)), durable)
    ensures Survivors(c, Sealed(log)).Keys == durable.Keys
    ensures forall k <- durable ::
      var p := Survivors(c, Sealed(log))[k];
      DecodesAt(c, log, p.off, p.len, durable[k])
  {
    hide Replay, Contents, LastMeta, MetaOf, Decodable, Readable, Place, Sealed, DecodesAt;
    SealedFits(log);
    var base := Sealed(log);
    var ps := Place(c.crc, base, HEADER_SIZE);
    var m := Survivors(c, base);
    ReplayContents(c, base, HEADER_SIZE);
    assert m.Keys == Strip(m).Keys;
    SealedReadable(c, log);
    PlacedReadable(c, base);
    LastMetaIs(c, base, HEADER_SIZE);
    assert Gate(m, LastMeta(c, ps)) == m;
    forall k <- durable
      ensures DecodesAt(c, log, m[k].off, m[k].len, durable[k])
    {
      SurvivorDecodes(c, log, base, k, durable[k]);
    }
  }

  lemma SealedFits(log: seq<Rec>)
    requires AllFit(log)
    ensures AllFit(Sealed(log)) && Sealed(log) <= log
  {
  }

  lemma SurvivorDecodes(c: Codec, log: seq<Rec>, base: seq<Rec>, k: Key, d: Doc)
    requires AllFit(log) && AllFit(base) && base <= log
    requires k in Survivors(c, base) && OnDisk(c, base, k) == Some(d)
    ensures var p := Survivors(c, base)[k]; DecodesAt(c, log, p.off, p.len, d)
  {
    hide Replay, Contents, Place;
    var ps := Place(c.crc, base, HEADER_SIZE);
    var m := Survivors(c, base);
    ReplayContents(c, base, HEADER_SIZE);
    var i := ReplayedFrom(ps, k);
    assert Strip(m)[k] == base[i];
    assert RecordIs(c, base, i, m[k].off, m[k].len, d);
    assert log == base + log[|base|..];
    DecodesAtAppend(c, base, log[|base|..], m[k].off, m[k].len, d);
  }

  function ColdStore(header: Bytes, log: seq<Rec>, m: map<Key, Placed>, colls: set<Bytes>): Store
  {
    Store(map k | k in m :: Entry(None, m[k].off, m[k].len, false, 0),
          colls, [], 0, false, true, false, false, header, log)
  }

  lemma ColdEntries(c: Codec, header: Bytes, log: seq<Rec>, m: map<Key, Placed>, durable: map<Key, Doc>,
      colls: set<Bytes>)
    requires AllFit(log) && m.Keys == durable.Keys && Covers(Some(colls), durable)
    requires forall k <- durable :: DecodesAt(c, log, m[k].off, m[k].len, durable[k])
    ensures var t := ColdStore(header, log, m, colls);
            EntriesOk(c, t, log, durable, durable) && DelsOk(t, durable, durable) && QuietOk(t)
  {
    hide AllFit, DecodesAt;
  }

  lemma EmptyEntries(c: Codec, header: Bytes)
    ensures var t := Store(map[], {}, [], 0, true, false, false, false, header, []);
            EntriesOk(c, t, [], map[], map[]) && DelsOk(t, map[], map[]) && QuietOk(t)
  {
  }

  /** Whatever bytes a crash leaves, as long as they recover to what the log commits,
      the reopened store is the durable map, cold, and satisfies the invariant. */
  lemma ReopenKeeps(c: Codec, s: Store, data: Bytes, docs: map<Key, Doc>, history: seq<map<Key, Doc>>)
    requires Inverse(c) && FileOk(s) && LogOk(c, s.log, docs) && docs in history
    requires s.log != [] ==> Recover(c, data) == Committed(c, Sealed(s.log))
    ensures Inv(c, Run(Reopen(c, s, data), Idle, docs, docs, history))
  {
    var q := Run(Reopen(c, s, data), Idle, docs, docs, history);
    if s.log != [] {
      CommittedIsDurable(c, s.log, docs);
      var m, meta := Survivors(c, Sealed(s.log)), MetaOf(c, Sealed(s.log));
      ColdEntries(c, s.header, s.log, m, docs, meta.value);
      assert q.s == ColdStore(s.header, s.log, m, meta.value);
    } else {
      assert docs == map[] by { NothingDurable(c, docs); }
      EmptyEntries(c, s.header);
    }
    hide Recover, Committed, LogOk, AllFit, Inverse, Survivors, SinceSnapshot, PhaseOk, EntriesOk, DelsOk,
        QuietOk, Reopen, ColdStore, Sealed;
    assert q.s.entries.Keys == q.plain.Keys by {
      assert EntriesOk(c, q.s, q.s.log, q.plain, q.durable);
      EntriesKeys(c, q.s, q.s.log, q.plain, q.durable);
    }
    IdleOk(c, q);
  }

  lemma NothingDurable(c: Codec, durable: map<Key, Doc>)
    requires LogOk(c, [], durable)
    ensures durable == map[]
  {
    assert Contents(map[], []) == map[];
  }

  lemma EntriesKeys(c: Codec, s: Store, log: seq<Rec>, plain: map<Key, Doc>, durable: map<Key, Doc>)
    requires AllFit(log) && EntriesOk(c, s, log, plain, durable)
    ensures s.entries.Keys == plain.Keys
  {
  }

  lemma IdleOk(c: Codec, r: Run)
    requires r.phase.Idle? && r.s.entries.Keys == r.plain.Keys && AllFit(r.s.log)
    ensures PhaseOk(c, r)
  {
  }

  lemma DurableLog(c: Codec, r: Run)
    requires Inv(c, r)
    ensures AllFit(r.s.log) && LogOk(c, r.s.log, r.durable) && r.durable in r.history
    ensures r.s.log != [] ==> Sealed(r.s.log) != []
  {
  }

  lemma CrashKeeps(c: Codec, r: Run)
    requires Inv(c, r) && FileOk(r.s)
    ensures Inv(c, Reopened(c, r, File(c, r.s)))
  {
    DurableLog(c, r);
    CodecInverse(c, r);
    hide Inv, Recover, Committed, LogOk, Reopen, Layout, Sealed;
    if r.s.log != [] { RecoverSealed(c, r.s.header, r.s.log); }
    ReopenKeeps(c, r.s, File(c, r.s), r.durable, r.history);
  }

  lemma CodecInverse(c: Codec, r: Run)
    requires Inv(c, r)
    ensures Inverse(c)
  {
  }

  // ---------------------------------------------------------------- a torn append

  /** These operations say what the map says anyway. */
  ghost predicate HarmlessOps(ops: seq<Op>, docs: map<Key, Doc>)
  {
    forall k: Key ::
      match LastOp(ops, k)
      case Untouched => true
      case Stores(d) => Get(docs, k) == Some(d)
      case Drops => k !in docs
  }

  /** How many operations of the batch are in the file whole after n bytes. */
  function WholeOps(c: Codec, r: Run, nonces: seq<Bytes>, n: nat): (k: nat)
    requires TornAppend(c, r, nonces, n)
    ensures k <= |r.phase.st.ops|
  {
    WholeCount(c.crc, EncodeAll(c, r.phase.st.ops, nonces), n)
  }

  /** The batch is complete, or what is kept of it says what the file said before. */
  ghost predicate KeptIsHarmless(c: Codec, r: Run, nonces: seq<Bytes>, n: nat)
    requires TornAppend(c, r, nonces, n)
  {
    var k := WholeOps(c, r, nonces, n);
    k == |r.phase.st.ops| || HarmlessOps(r.phase.st.ops[..k], r.durable)
  }

  lemma SnappedFacts(c: Codec, r: Run)
    requires Inv(c, r) && r.phase.Snapped?
    ensures IsOrdered(r.phase.st.ops, r.phase.snap) && r.phase.snap in r.history
    ensures !r.phase.st.full ==> forall k: Key ::
      Get(r.phase.snap, k) == DiskAfter(LastOp(r.phase.st.ops, k), false, Get(r.durable, k))
  {
    hide LogOk, EntriesOk, DelsOk, QuietOk, SinceSnapshot, IsOrdered, LastOp;
  }

  lemma KeptOps(c: Codec, r: Run, nonces: seq<Bytes>, n: nat)
    requires Inv(c, r) && TornAppend(c, r, nonces, n)
    ensures var k := WholeOps(c, r, nonces, n);
            var rs := EncodeAll(c, r.phase.st.ops, nonces);
            && Kept(c.crc, rs, n) == rs[..k] == EncodeAll(c, r.phase.st.ops[..k], nonces[..k])
            && (k == |rs| <==> n == |Layout(c.crc, rs)|)
            && (k == |rs| ==> rs[..k] == rs && IsBatch(rs)) && (k < |rs| ==> Unsealed(rs[..k]))
  {
    hide Layout, Inv, IsOrdered, LastOp, EncodeOp;
    var rs := EncodeAll(c, r.phase.st.ops, nonces);
    SnappedFacts(c, r);
    CodecInverse(c, r);
    OrderedBatch(c, r.phase.st.ops, nonces, r.phase.snap);
    KeptOfBatch(c.crc, rs, n);
  }

  /** After a torn append the log still holds its map exactly when the batch is
      complete or the records kept of it are harmless. */
  lemma TornLogExact(c: Codec, r: Run, nonces: seq<Bytes>, n: nat)
    requires Inv(c, r) && TornAppend(c, r, nonces, n)
    ensures AllFit(TornLog(c, r, nonces, n))
    ensures LogOk(c, TornLog(c, r, nonces, n), TornDocs(c, r, nonces, n)) <==> KeptIsHarmless(c, r, nonces, n)
  {
    hide Inv, Layout, EncodeAll, LogOk, IsOrdered, LastOp, Kept, HarmlessOps;
    var ops, k := r.phase.st.ops, WholeOps(c, r, nonces, n);
    DurableLog(c, r);
    CodecInverse(c, r);
    SnappedFacts(c, r);
    KeptOps(c, r, nonces, n);
    if k == |ops| {
      BatchLogOk(c, r.s.log, r.durable, ops, nonces, r.phase.snap);
    } else {
      PartLogExact(c, r.s.log, r.durable, ops[..k], nonces[..k]);
    }
  }

  lemma PartLogExact(c: Codec, log: seq<Rec>, docs: map<Key, Doc>, ops: seq<Op>, nonces: seq<Bytes>)
    requires AllFit(log) && LogOk(c, log, docs) && Inverse(c) && log != []
    requires |nonces| == |ops| && AllFit(EncodeAll(c, ops, nonces)) && Unsealed(EncodeAll(c, ops, nonces))
    ensures AllFit(log + EncodeAll(c, ops, nonces))
    ensures LogOk(c, log + EncodeAll(c, ops, nonces), docs) <==> HarmlessOps(ops, docs)
  {
    hide EncodeAll, LastOp, MetaOf, Readable, Holds, Inverse, Sealed, Unsealed, HarmlessOps;
    var rs := EncodeAll(c, ops, nonces);
    EncodedReadable(c, ops, nonces);
    ReadableAppend(c, log, rs);
    SealedAppend(log, rs);
    PartHolds(c, log, docs, ops, nonces);
  }

  lemma PartHolds(c: Codec, log: seq<Rec>, docs: map<Key, Doc>, ops: seq<Op>, nonces: seq<Bytes>)
    requires Holds(c, log, docs) && Inverse(c)
    requires |nonces| == |ops| && AllFit(EncodeAll(c, ops, nonces))
    ensures Holds(c, log + EncodeAll(c, ops, nonces), docs) <==> HarmlessOps(ops, docs)
  {
    hide EncodeAll, LastOp, Contents, Inverse, AllFit, OnDisk;
    var rs := EncodeAll(c, ops, nonces);
    if HarmlessOps(ops, docs) {
      hide Holds;
      BatchHolds(c, log, docs, ops, nonces, docs);
    }
    if Holds(c, log + rs, docs) {
      forall k: Key
        ensures match LastOp(ops, k)
                case Untouched => true
                case Stores(d) => Get(docs, k) == Some(d)
                case Drops => k !in docs
      {
        BatchOnDisk(c, log, ops, nonces, k);
      }
    }
  }

  lemma TornRecovers(c: Codec, r: Run, nonces: seq<Bytes>, n: nat)
    requires Inv(c, r) && FileOk(r.s) && TornAppend(c, r, nonces, n)
    ensures AllFit(TornLog(c, r, nonces, n)) && AllFit(Sealed(TornLog(c, r, nonces, n)))
    ensures Recover(c, TornFile(c, r, nonces, n)) == Committed(c, Sealed(TornLog(c, r, nonces, n)))
    ensures AfterOpen(c, TornFile(c, r, nonces, n)) == r.s.header + Layout(c.crc, TornLog(c, r, nonces, n))
  {
    DurableLog(c, r);
    hide Inv, LogOk, Recover, Committed, Layout, Kept, EncodeAll, Sealed, AfterOpen;
    CutRecovers(c, r.s.header, r.s.log, EncodeAll(c, r.phase.st.ops, nonces), n);
    TornOpenKeepsTail(c, r.s.header, r.s.log, EncodeAll(c, r.phase.st.ops, nonces), n);
  }

  /** A crash anywhere inside an append recovers a map the store held: the durable
      one, or the snapshot once the COMMIT is complete. Each recovered offset
      decodes to its document. This needs no condition on what the cut left. */
  lemma TornCrash(c: Codec, r: Run, nonces: seq<Bytes>, n: nat)
    requires Inv(c, r) && FileOk(r.s) && TornAppend(c, r, nonces, n)
    ensures var docs := TornDocs(c, r, nonces, n);
            var file := TornFile(c, r, nonces, n);
            && docs in r.history && Recover(c, file).Docs?
            && var m := Recover(c, file).entries;
               && m.Keys == docs.Keys
               && forall k <- m ::
                    && m[k].off + m[k].len <= |file|
                    && DecodeDocRecord(c, file[m[k].off..m[k].off + m[k].len]) == Some(docs[k])
  {
    hide Inv, LogOk, Recover, Committed, Layout, Kept, EncodeAll, Sealed, Survivors, DecodesAt, DecodeDocRecord,
      IsOrdered, LastOp, HarmlessOps;
    SnappedFacts(c, r);
    DurableLog(c, r);
    TornRecovers(c, r, nonces, n);
    var post := TornPost(c, r, nonces, n);
    var log := if post.0 then TornLog(c, r, nonces, n) else r.s.log;
    CommittedIsDurable(c, log, TornDocs(c, r, nonces, n));
    RecoveredDecodes(c, r.s.header, log, post.1, Survivors(c, Sealed(log)), TornDocs(c, r, nonces, n));
  }

  /** The torn file as the layout of the log that is committed in it, and the rest. */
  lemma TornPost(c: Codec, r: Run, nonces: seq<Bytes>, n: nat) returns (post: (bool, Bytes))
    requires Inv(c, r) && FileOk(r.s) && TornAppend(c, r, nonces, n)
    ensures AllFit(TornLog(c, r, nonces, n))
    ensures var log := if post.0 then TornLog(c, r, nonces, n) else r.s.log;
            && log != [] && LogOk(c, log, TornDocs(c, r, nonces, n))
            && Sealed(log) == Sealed(TornLog(c, r, nonces, n))
            && TornFile(c, r, nonces, n) == r.s.header + Layout(c.crc, log) + post.1
  {
    hide Inv, LogOk, Layout, Kept, EncodeAll, Sealed, IsOrdered, LastOp, HarmlessOps, Unsealed;
    var rs := EncodeAll(c, r.phase.st.ops, nonces);
    DurableLog(c, r);
    KeptOps(c, r, nonces, n);
    TornLogExact(c, r, nonces, n);
    if n == |Layout(c.crc, rs)| {
      post := (true, []);
      LayoutAppend(c.crc, r.s.log, rs);
      assert Layout(c.crc, rs)[..n] == Layout(c.crc, rs);
    } else {
      post := (false, Layout(c.crc, rs)[..n]);
      SealedAppend(r.s.log, Kept(c.crc, rs, n));
    }
  }

  lemma RecoveredDecodes(c: Codec, header: Bytes, log: seq<Rec>, post: Bytes, m: map<Key, Placed>, docs: map<Key, Doc>)
    requires |header| == HEADER_SIZE && AllFit(log) && m.Keys == docs.Keys
    requires forall k <- docs :: DecodesAt(c, log, m[k].off, m[k].len, docs[k])
    ensures var file := header + Layout(c.crc, log) + post;
            forall k <- m ::
              && m[k].off + m[k].len <= |file|
              && DecodeDocRecord(c, file[m[k].off..m[k].off + m[k].len]) == Some(docs[k])
  {
    hide Layout, DecodesAt, DecodeDocRecord;
    var file := header + Layout(c.crc, log) + post;
    forall k <- m
      ensures m[k].off + m[k].len <= |file|
      ensures DecodeDocRecord(c, file[m[k].off..m[k].off + m[k].len]) == Some(docs[k])
    {
      DecodeInFile(c, header, log, post, m[k].off, m[k].len, docs[k]);
    }
  }

  // ---------------------------------------------------------------- whole runs

  /** What a step does to the plain map: mutations change it, a crash falls back to
      what is durable, and everything the cache or the flush does leaves it alone. */
  function PlainNext(c: Codec, r: Run, step: Step): map<Key, Doc>
    requires Enabled(c, r, step)
  {
    match step
    case PutStep(k, d) => r.plain[k := d]
    case UpdateStep(k, patch, remove) =>
      if k in r.plain then r.plain[k := Patched(r.plain[k], patch, remove)] else r.plain
    case RemoveStep(k) => r.plain - {k}
    case DropCollStep(coll) => Without(r.plain, coll)
    case CrashStep => r.durable
    case CrashInWriteStep(nonces, n) => TornDocs(c, r, nonces, n)
    case _ => r.plain
  }

  /** The program answers with an error and does nothing. */
  predicate Refused(c: Codec, r: Run, step: Step)
    requires FileOk(r.s) && Enabled(c, r, step)
  {
    match step
    case UpdateStep(k, _, _) => !ReadEntry(c, r.s, r.s.entries[k]).Found?
    case RemoveStep(k) => ReadEntry(c, r.s, r.s.entries[k]).Unreadable?
    case _ => false
  }

  /** When a step keeps the promise. Most always do; the others have a condition on
      the state before them. */
  ghost predicate Safe(c: Codec, r: Run, step: Step)
    requires FileOk(r.s) && Enabled(c, r, step)
  {
    match step
    case UpdateStep(k, patch, remove) =>
      // the document read, patched, is the right one, patched
      var read := ReadEntry(c, r.s, r.s.entries[k]);
      read.Found? && k in r.plain ==> Patched(read.doc, patch, remove) == Patched(r.plain[k], patch, remove)
    case LoadStep(k) =>
      var read := ReadEntry(c, r.s, r.s.entries[k]);
      read.Found? && k in r.plain ==> read.doc == r.plain[k]
    case DropCollStep(coll) => DropIsSafe(r, coll)
    case ReconcileStep => r.phase.st.full ==> r.phase.snap.Keys <= r.s.entries.Keys
    case CrashInWriteStep(nonces, n) => KeptIsHarmless(c, r, nonces, n)
    case _ => true
  }

  /** Every document dropped with its collection is either not in the file, nor in
      the batch under way, or has a deletion queued that will be written after it. */
  predicate DropIsSafe(r: Run, coll: Bytes)
  {
    forall k <- r.plain | k.coll == coll ::
      && (k in r.durable ==> Pending(r.s.pendingDels, k))
      && (!r.phase.Idle? && k in r.phase.snap ==> Pending(KeepLater(r.s.pendingDels, r.phase.st.gen), k))
  }

  /** Reads are right, and never refused, unless a full rewrite awaits its
      reconciliation. */
  lemma OnlyTheWindowIsUnsafe(c: Codec, r: Run, step: Step)
    requires Inv(c, r) && FileOk(r.s) && Enabled(c, r, step)
    requires step.UpdateStep? || step.LoadStep? || step.RemoveStep?
    requires ReadsSafe(r) || r.s.entries[step.k].doc.Some?
    ensures Safe(c, r, step) && !Refused(c, r, step)
  {
    hide Inv, ReadEntry, FileOk, Patched;
    EntryKeys(c, r);
    ReadRefines(c, r, step.k);
  }

  lemma WarmEntry(c: Codec, r: Run, k: Key)
    requires Inv(c, r) && r.s.entries.Keys == r.plain.Keys && k in r.plain
    ensures r.s.entries[k].doc.Some? ==> r.s.entries[k].doc.value == r.plain[k]
  {
    hide DecodesAt, LogOk, DelsOk, QuietOk, PhaseOk, FlagsOk, Inverse;
  }

  lemma UpdateExact(c: Codec, r: Run, k: Key, patch: Doc, remove: set<Bytes>)
    requires Inv(c, r) && FileOk(r.s) && k in r.s.entries
    ensures Inv(c, AfterUpdate(c, r, k, patch, remove)) <==> Safe(c, r, UpdateStep(k, patch, remove))
  {
    hide Inv, ReadEntry, FileOk, Patched;
    EntryKeys(c, r);
    var q := AfterUpdate(c, r, k, patch, remove);
    var read := ReadEntry(c, r.s, r.s.entries[k]);
    if read.Found? {
      if Patched(read.doc, patch, remove) == Patched(r.plain[k], patch, remove) {
        PutKeeps(c, r, k, Patched(r.plain[k], patch, remove));
      }
      if Inv(c, q) {
        EntryKeys(c, q);
        WarmEntry(c, q, k);
      }
    }
  }

  lemma LoadExact(c: Codec, r: Run, k: Key)
    requires Inv(c, r) && FileOk(r.s) && k in r.s.entries
    ensures Inv(c, WithEntry(r, k, Loaded(c, r.s, r.s.entries[k]))) <==> Safe(c, r, LoadStep(k))
  {
    hide Inv, ReadEntry, FileOk;
    EntryKeys(c, r);
    var e := Loaded(c, r.s, r.s.entries[k]);
    var q := WithEntry(r, k, e);
    if ReadEntry(c, r.s, r.s.entries[k]).Found? {
      if e.doc == Some(r.plain[k]) { ResidencyKeeps(c, r, k, e); }
      if Inv(c, q) {
        EntryKeys(c, q);
        WarmEntry(c, q, k);
      }
    } else {
      assert r.s.entries[k := e] == r.s.entries;
    }
  }

  lemma RemoveStepKeeps(c: Codec, r: Run, k: Key)
    requires Inv(c, r) && FileOk(r.s) && k in r.s.entries
    ensures Inv(c, AfterRemove(c, r, k))
  {
    hide Inv, ReadEntry, FileOk, Remove, Mutated;
    EntryKeys(c, r);
    RemoveKeeps(c, r, k);
  }

  // ---------------------------------------------------------------- dropping a collection

  lemma DropEntries(c: Codec, s: Store, log: seq<Rec>, plain: map<Key, Doc>, durable: map<Key, Doc>, coll: Bytes)
    requires AllFit(log) && EntriesOk(c, s, log, plain, durable)
    ensures EntriesOk(c, Dropped(s, coll), log, Without(plain, coll), durable) && QuietOk(Dropped(s, coll))
  {
    hide AllFit, DecodesAt;
  }

  lemma DropDels(s: Store, plain: map<Key, Doc>, durable: map<Key, Doc>, coll: Bytes)
    requires s.entries.Keys == plain.Keys && DelsOk(s, plain, durable)
    ensures DelsOk(Dropped(s, coll), Without(plain, coll), durable)
            <==> forall k <- plain | k.coll == coll :: k in durable ==> Pending(s.pendingDels, k)
  {
    hide Pending;
    var t, left := Dropped(s, coll), Without(plain, coll);
    if DelsOk(t, left, durable) {
      forall k <- plain | k.coll == coll && k in durable
        ensures Pending(s.pendingDels, k)
      {
        assert k !in left;
      }
    }
  }

  lemma DropSinceSnapshot(s: Store, plain: map<Key, Doc>, st: FlushState, snap: map<Key, Doc>, coll: Bytes)
    requires s.entries.Keys == plain.Keys && SinceSnapshot(s, plain, st, snap)
    ensures SinceSnapshot(Dropped(s, coll), Without(plain, coll), st, snap)
            <==> forall k <- plain | k.coll == coll :: k in snap ==> Pending(KeepLater(s.pendingDels, st.gen), k)
  {
    hide LastOp, KeepLater, Pending;
    var t, left := Dropped(s, coll), Without(plain, coll);
    if SinceSnapshot(t, left, st, snap) {
      forall k <- plain | k.coll == coll && k in snap
        ensures Pending(KeepLater(s.pendingDels, st.gen), k)
      {
        assert k !in left;
      }
    }
  }

  lemma DropExact(c: Codec, r: Run, coll: Bytes)
    requires Inv(c, r)
    ensures Inv(c, Mutated(r, Dropped(r.s, coll), Without(r.plain, coll))) <==> DropIsSafe(r, coll)
  {
    hide EntriesOk, DelsOk, QuietOk, LogOk, PlacesOk, BatchYields, AllFit, Inverse, SinceSnapshot, KeepLater, Pending;
    EntryKeys(c, r);
    DropEntries(c, r.s, OffsetsLog(r), r.plain, r.durable, coll);
    DropDels(r.s, r.plain, r.durable, coll);
    if !r.phase.Idle? {
      DropSinceSnapshot(r.s, r.plain, r.phase.st, r.phase.snap, coll);
    }
  }

  /** A torn append and the open that follows keep the promise exactly when what was
      kept of the batch is harmless. */
  lemma TearExact(c: Codec, r: Run, nonces: seq<Bytes>, n: nat)
    requires Inv(c, r) && FileOk(r.s) && TornAppend(c, r, nonces, n)
    ensures Inv(c, AfterTear(c, r, nonces, n)) <==> KeptIsHarmless(c, r, nonces, n)
  {
    hide Inv, LogOk, Recover, Committed, Reopen, Layout, Kept, EncodeAll, Sealed, KeptIsHarmless, IsOrdered, LastOp,
         AfterOpen;
    var log, docs := TornLog(c, r, nonces, n), TornDocs(c, r, nonces, n);
    var q := AfterTear(c, r, nonces, n);
    TornLogExact(c, r, nonces, n);
    TornRecovers(c, r, nonces, n);
    SnappedFacts(c, r);
    DurableLog(c, r);
    CodecInverse(c, r);
    ReopenedLog(c, r.s.(log := log), TornFile(c, r, nonces, n));
    if LogOk(c, log, docs) {
      ReopenKeeps(c, r.s.(log := log), TornFile(c, r, nonces, n), docs, r.history);
    }
    if Inv(c, q) { DurableLog(c, q); }
  }

  lemma ReopenedLog(c: Codec, s: Store, data: Bytes)
    ensures Reopen(c, s, data).log == s.log
  {
    hide Recover;
  }

  // ---------------------------------------------------------------- every step, every run

  /** A step keeps the invariant exactly when it is safe, and unless it is refused
      acts on the plain map as it would on an uncached, unflushed one. */
  lemma StepExact(c: Codec, r: Run, step: Step)
    requires Inv(c, r) && FileOk(r.s) && Enabled(c, r, step)
    ensures Inv(c, Next(c, r, step)) <==> Safe(c, r, step)
    ensures Next(c, r, step).plain == if Refused(c, r, step) then r.plain else PlainNext(c, r, step)
  {
    StepPlain(c, r, step);
    hide Inv, FileOk, Enabled, Next, Safe, Refused, PlainNext;
    if FlushOrCrash(step) {
      FlushStepExact(c, r, step);
    } else {
      MemoryStepExact(c, r, step);
    }
  }

  predicate FlushOrCrash(step: Step)
  {
    step.SnapshotStep? || step.WriteStep? || step.ReconcileStep? || step.CrashStep? || step.CrashInWriteStep?
  }

  lemma MemoryStepExact(c: Codec, r: Run, step: Step)
    requires Inv(c, r) && FileOk(r.s) && Enabled(c, r, step) && !FlushOrCrash(step)
    ensures Inv(c, Next(c, r, step)) <==> Safe(c, r, step)
  {
    hide Inv, FileOk, Put, Remove, Patched, Loaded, AfterUpdate, AfterRemove, Mutated, Touched, Dropped, Compacting,
         DropIsSafe, ReadEntry, TornAppend, Lists, AllIdx;
    EntryKeys(c, r);
    match step
    case PutStep(k, d) => PutKeeps(c, r, k, d);
    case UpdateStep(k, patch, remove) => UpdateExact(c, r, k, patch, remove);
    case RemoveStep(k) => RemoveStepKeeps(c, r, k);
    case LoadStep(k) => LoadExact(c, r, k);
    case EvictStep(k) => ResidencyKeeps(c, r, k, r.s.entries[k].(doc := None));
    case CreateCollStep(coll) => TouchKeeps(c, r, r.s.colls + {coll});
    case DropCollStep(coll) => DropExact(c, r, coll);
    case SchemaStep => TouchKeeps(c, r, r.s.colls);
    case CompactStep => CompactKeeps(c, r);
    case _ => assert false;
  }

  lemma FlushStepExact(c: Codec, r: Run, step: Step)
    requires Inv(c, r) && FileOk(r.s) && Enabled(c, r, step) && FlushOrCrash(step)
    ensures Inv(c, Next(c, r, step)) <==> Safe(c, r, step)
  {
    hide Inv, FileOk, AfterSnapshot, AfterWrite, Reconciled, Reopened, AfterTear, TornAppend, File, Lists, AllIdx,
         KeptIsHarmless;
    match step
    case SnapshotStep(ks, idx) => SnapshotKeeps(c, r, ks, idx);
    case WriteStep(nonces, header) => WriteKeeps(c, r, nonces, header);
    case ReconcileStep => ReconcileExact(c, r);
    case CrashStep => CrashKeeps(c, r);
    case CrashInWriteStep(nonces, n) => TearExact(c, r, nonces, n);
    case _ => assert false;
  }

  lemma StepPlain(c: Codec, r: Run, step: Step)
    requires FileOk(r.s) && Enabled(c, r, step)
    ensures Next(c, r, step).plain == if Refused(c, r, step) then r.plain else PlainNext(c, r, step)
  {
    hide PrepareFlush, WriteState, ApplyFlushed, Reopen, TornFile, TornAppend, File, AllFit, Lists, AllIdx, ReadEntry,
         Put, Remove, Patched, Dropped, Without, TornDocs, TornLog;
  }

  lemma TouchKeeps(c: Codec, r: Run, colls: set<Bytes>)
    requires Inv(c, r) && forall k <- r.s.entries | k.coll in r.s.colls :: k.coll in colls
    ensures Inv(c, r.(s := Touched(r.s).(colls := colls)))
    ensures colls == r.s.colls ==> Touched(r.s).(colls := colls) == Touched(r.s)
  {
    EntryKeys(c, r);
    CollsCover(c, r);
    hide Inv;
    SchemaKeeps(c, r, Touched(r.s).(colls := colls));
  }

  lemma CompactKeeps(c: Codec, r: Run)
    requires Inv(c, r)
    ensures Inv(c, r.(s := Compacting(r.s)))
  {
    CollsCover(c, r);
    hide Inv;
    SchemaKeeps(c, r, Compacting(r.s));
  }

  /** A new store: nothing in memory, no file. */
  function Start(header: Bytes): Run
  {
    Run(Store(map[], {}, [], 0, true, false, false, false, header, []), Idle, map[], map[], [map[]])
  }

  ghost predicate IsRun(c: Codec, rs: seq<Run>, steps: seq<Step>)
  {
    && |rs| == |steps| + 1 && |rs[0].s.header| == HEADER_SIZE && rs[0] == Start(rs[0].s.header)
    && forall i | 0 <= i < |steps| ::
         FileOk(rs[i].s) && Enabled(c, rs[i], steps[i]) && rs[i + 1] == Next(c, rs[i], steps[i])
  }

  lemma StartKeeps(c: Codec, header: Bytes)
    requires Inverse(c) && |header| == HEADER_SIZE
    ensures Inv(c, Start(header))
  {
    EmptyEntries(c, header);
    EmptyLogOk(c);
    hide EntriesOk, DelsOk, QuietOk, LogOk, Inverse;
    var r := Start(header);
    assert r.history[0] == map[];
    assert r.s.entries.Keys == r.plain.Keys;
  }

  /** Every state of a run satisfies the invariant exactly when all its steps are
      safe. */
  lemma RunsAreSafe(c: Codec, rs: seq<Run>, steps: seq<Step>)
    requires Inverse(c) && IsRun(c, rs, steps)
    ensures (forall i | 0 <= i < |rs| :: Inv(c, rs[i])) <==> (forall i | 0 <= i < |steps| :: Safe(c, rs[i], steps[i]))
  {
    hide Inv, Next, Enabled, FileOk, Safe;
    if forall i | 0 <= i < |steps| :: Safe(c, rs[i], steps[i]) {
      forall i | 0 <= i < |rs|
        ensures Inv(c, rs[i])
      {
        SafeSoFar(c, rs, steps, i);
      }
    }
    if forall i | 0 <= i < |rs| :: Inv(c, rs[i]) {
      forall i | 0 <= i < |steps|
        ensures Safe(c, rs[i], steps[i])
      {
        assert Inv(c, rs[i]) && Inv(c, rs[i + 1]);
        StepExact(c, rs[i], steps[i]);
      }
    }
  }

  lemma {:induction false} SafeSoFar(c: Codec, rs: seq<Run>, steps: seq<Step>, i: nat)
    requires Inverse(c) && IsRun(c, rs, steps) && i < |rs|
    requires forall j | 0 <= j < i :: Safe(c, rs[j], steps[j])
    ensures Inv(c, rs[i])
  {
    hide Inv, Next, Enabled, FileOk, Safe;
    if i == 0 {
      StartKeeps(c, rs[0].s.header);
    } else {
      SafeSoFar(c, rs, steps, i - 1);
      StepExact(c, rs[i - 1], steps[i - 1]);
    }
  }

  /** From every sound state a crash recovers, key for key and offset for offset, a map
      the store really held at some earlier moment of the run. */
  lemma CrashRecoversHistory(c: Codec, r: Run)
    requires Inv(c, r) && r.s.log != []
    ensures FileOk(r.s) && Recover(c, File(c, r.s)).Docs?
    ensures r.durable in r.history
    ensures var m := Recover(c, File(c, r.s)).entries;
            && m.Keys == r.durable.Keys
            && forall k <- m ::
                 && m[k].off + m[k].len <= |File(c, r.s)|
                 && DecodeDocRecord(c, File(c, r.s)[m[k].off..m[k].off + m[k].len]) == Some(r.durable[k])
  {
    hide Inv, Recover, Committed, LogOk, Survivors, DecodesAt, DecodeDocRecord, Layout, AllFit, FileOk, Sealed;
    EntryKeys(c, r);
    DurableLog(c, r);
    CommittedIsDurable(c, r.s.log, r.durable);
    RecoveredFile(c, r.s);
    RecoveredDecodes(c, r.s.header, r.s.log, [], Survivors(c, Sealed(r.s.log)), r.durable);
    assert File(c, r.s) + [] == File(c, r.s);
  }

  lemma RecoveredFile(c: Codec, s: Store)
    requires FileOk(s) && Sealed(s.log) != []
    ensures |s.header| == HEADER_SIZE && AllFit(s.log) && AllFit(Sealed(s.log))
    ensures Recover(c, File(c, s)) == Committed(c, Sealed(s.log))
    ensures File(c, s) == s.header + Layout(c.crc, s.log)
  {
    hide Recover, Committed, Layout, Sealed;
    RecoverSealed(c, s.header, s.log);
  }
}
