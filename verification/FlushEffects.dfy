/** What a flush achieves: a store with anything to write writes it, and afterwards the
    file holds exactly the documents in memory. */
module FlushEffects {
  import opened ByteCodec
  import opened Values
  import opened RecordLog
  import opened TornTail
  import opened FlushProtocol
  import opened FlushRuns
  import opened FlushSafety
  import opened FlushCrash
  import opened FlushSteps

  /** A flush of a store that has changed, or is to be compacted, stages the documents
      of that moment; of any other store it does nothing. */
  lemma SnapshotStages(c: Codec, r: Run, ks: seq<Key>, idx: seq<Op>)
    requires Inv(c, r) && FileOk(r.s) && r.phase.Idle? && Lists(ks, r.s.entries.Keys) && AllIdx(idx)
    ensures Enabled(c, r, SnapshotStep(ks, idx))
    ensures var q := Next(c, r, SnapshotStep(ks, idx));
            if r.s.dirty || r.s.compactForce then
              && q.phase.Snapped? && q.phase.snap == r.plain && q.phase.st.gen == r.s.dirtyGen
              && (q.phase.st.full <==> !r.s.sawFile || r.s.compactForce)
              && q.s == r.s.(entries := q.s.entries, flushInProgress := true, compactForce := false)
              && (q.phase.st.full ==> |q.phase.st.ops| == |r.plain| + |idx| + 2)
              && (q.phase.st.full ==> forall k <- r.plain :: k in q.s.entries && q.s.entries[k].doc == Some(r.plain[k]))
              && q.plain == r.plain && q.durable == r.durable && Inv(c, q)
            else q == r
  {
    hide Inv, StageDocs, Loaded, OrderOps, AllFit;
    NoReadError(c, r, ks, idx);
    SnapshotKeeps(c, r, ks, idx);
    EntryKeys(c, r);
    StagesAll(c, r, ks);
    forall k | k in r.plain
      ensures k in r.s.entries && Loaded(c, r.s, r.s.entries[k]).doc == Some(r.plain[k])
    {
      LoadedIs(c, r, k);
    }
    ListSize(ks, r.s.entries.Keys);
    assert forall docs :: |OrderOps([], docs, r.s.colls, idx)| == |docs| + |idx| + 2 by {
      forall docs: seq<Op>
        ensures |OrderOps([], docs, r.s.colls, idx)| == |docs| + |idx| + 2
      {
        OrderSize(docs, r.s.colls, idx);
      }
    }
  }

  /** What is staged lists the collections of the moment in its META. */
  lemma StagedMeta(c: Codec, r: Run, ks: seq<Key>, idx: seq<Op>, nonces: seq<Bytes>)
    requires Inv(c, r) && FileOk(r.s) && r.phase.Idle? && Lists(ks, r.s.entries.Keys) && AllIdx(idx)
    requires r.s.dirty || r.s.compactForce
    ensures Enabled(c, r, SnapshotStep(ks, idx)) && Next(c, r, SnapshotStep(ks, idx)).phase.Snapped?
    ensures var ops := Next(c, r, SnapshotStep(ks, idx)).phase.st.ops;
            |nonces| == |ops| && AllFit(EncodeAll(c, ops, nonces)) ==>
              && IsBatch(EncodeAll(c, ops, nonces)) && HasMeta(EncodeAll(c, ops, nonces))
              && MetaOf(c, EncodeAll(c, ops, nonces)) == Some(r.s.colls)
  {
    CodecInverse(c, r);
    var dels, docs := StagedOps(c, r, ks, idx);
    hide Inv, Next, Enabled, FileOk, OrderOps, AllFit, EncodeAll, MetaOf, HasMeta, IsBatch;
    var ops := OrderOps(dels, docs, r.s.colls, idx);
    if |nonces| == |ops| && AllFit(EncodeAll(c, ops, nonces)) {
      BatchMeta(c, dels, docs, r.s.colls, idx, nonces);
    }
  }

  lemma StagedOps(c: Codec, r: Run, ks: seq<Key>, idx: seq<Op>) returns (dels: seq<DelItem>, docs: seq<Op>)
    requires Inv(c, r) && FileOk(r.s) && r.phase.Idle? && Lists(ks, r.s.entries.Keys) && AllIdx(idx)
    requires r.s.dirty || r.s.compactForce
    ensures Enabled(c, r, SnapshotStep(ks, idx)) && Next(c, r, SnapshotStep(ks, idx)).phase.Snapped?
    ensures Next(c, r, SnapshotStep(ks, idx)).phase.st.ops == OrderOps(dels, docs, r.s.colls, idx)
    ensures forall i | 0 <= i < |docs| :: docs[i].DocOp?
  {
    hide Inv, PrepareFlush, StageDocs, Next, Enabled, FileOk, OrderOps, LastOp, Lists, AllIdx;
    SnapshotStages(c, r, ks, idx);
    var s, st := StagedAs(c, r, ks, idx);
    PreparedOps(c, r, ks, idx, s, st);
    ListsKeys(ks, r.s.entries.Keys);
    StagedDocs(c, r, ks, st.full);
    dels, docs := st.dels, StageDocs(c, r.s, ks, st.full).value;
  }

  lemma ListsKeys(ks: seq<Key>, s: set<Key>)
    requires Lists(ks, s)
    ensures forall i | 0 <= i < |ks| :: ks[i] in s
  {
  }

  lemma StagedAs(c: Codec, r: Run, ks: seq<Key>, idx: seq<Op>) returns (s: Store, st: FlushState)
    requires FileOk(r.s) && r.phase.Idle? && Enabled(c, r, SnapshotStep(ks, idx))
    requires Next(c, r, SnapshotStep(ks, idx)).phase.Snapped?
    ensures Lists(ks, r.s.entries.Keys) && PrepareFlush(c, r.s, ks, idx) == Ready(s, st)
    ensures Next(c, r, SnapshotStep(ks, idx)).phase.st == st
  {
    hide PrepareFlush, AllFit;
    var p := PrepareFlush(c, r.s, ks, idx);
    s, st := p.s, p.st;
  }

  lemma OrderSize(docs: seq<Op>, colls: set<Bytes>, idx: seq<Op>)
    ensures |OrderOps([], docs, colls, idx)| == |docs| + |idx| + 2
  {
  }

  /** A full snapshot stages one operation for every document. */
  lemma {:induction false} StagesAll(c: Codec, r: Run, ks: seq<Key>)
    requires Inv(c, r) && FileOk(r.s) && ReadsSafe(r) && forall i | 0 <= i < |ks| :: ks[i] in r.s.entries
    ensures StageDocs(c, r.s, ks, true).Some? && |StageDocs(c, r.s, ks, true).value| == |ks|
  {
    hide Inv, ReadEntry, FileOk;
    if ks != [] {
      EntryKeys(c, r);
      StagesAll(c, r, ks[..|ks| - 1]);
      ReadRefines(c, r, ks[|ks| - 1]);
    }
  }

  lemma {:induction false} ListSize(ks: seq<Key>, s: set<Key>)
    requires Lists(ks, s)
    ensures |ks| == |s|
  {
    if ks == [] {
      assert s == {};
    } else {
      var n := |ks| - 1;
      assert Lists(ks[..n], s - {ks[n]});
      ListSize(ks[..n], s - {ks[n]});
    }
  }

  /** Snapshot, write and reconcile with nothing in between: the store is clean, and the
      file recovers to the documents that were in memory when the flush began. */
  lemma FlushTakesHold(c: Codec, r: Run, ks: seq<Key>, idx: seq<Op>, nonces: seq<Bytes>, header: Bytes)
    returns (q: Run)
    requires Inv(c, r) && FileOk(r.s) && r.phase.Idle? && (r.s.dirty || r.s.compactForce)
    requires Lists(ks, r.s.entries.Keys) && AllIdx(idx) && |header| == HEADER_SIZE
    requires var a := Next(c, r, SnapshotStep(ks, idx));
             a.phase.Snapped? ==> |nonces| == |a.phase.st.ops| && AllFit(EncodeAll(c, a.phase.st.ops, nonces))
    ensures var a := Next(c, r, SnapshotStep(ks, idx));
            && FileOk(a.s) && Enabled(c, a, WriteStep(nonces, header))
            && var b := Next(c, a, WriteStep(nonces, header));
               && FileOk(b.s) && Enabled(c, b, ReconcileStep) && q == Next(c, b, ReconcileStep)
    ensures Inv(c, q) && q.phase.Idle? && q.plain == q.durable == r.plain
    ensures q.s.colls == r.s.colls && EndsInCommit(q.s.log) && MetaOf(c, q.s.log) == Some(r.s.colls)
    ensures !q.s.dirty && q.s.pendingDels == [] && !q.s.compactForce && q.s.sawFile
    ensures !r.s.sawFile || r.s.compactForce ==> |q.s.log| == |r.plain| + |idx| + 2
    ensures r.s.sawFile && !r.s.compactForce ==> r.s.log <= q.s.log && q.s.header == r.s.header
    ensures q.s.entries.Keys == r.plain.Keys && forall k <- q.s.entries :: !q.s.entries[k].dirty
  {
    hide Inv, FileOk, Next, Enabled, Safe, EncodeAll, AllFit, Lists, AllIdx;
    SnapshotStages(c, r, ks, idx);
    StagedMeta(c, r, ks, idx, nonces);
    var a := Next(c, r, SnapshotStep(ks, idx));
    EntryKeys(c, a);
    if a.phase.st.full { FullWrite(c, a, nonces, header); } else { AppendWrite(c, a, nonces, header); }
    StepExact(c, a, WriteStep(nonces, header));
    var b := Next(c, a, WriteStep(nonces, header));
    EntryKeys(c, b);
    ReconcileQuietly(c, b);
    StepExact(c, b, ReconcileStep);
    q := Next(c, b, ReconcileStep);
    BatchEnds(c, if a.phase.st.full then [] else a.s.log, EncodeAll(c, a.phase.st.ops, nonces));
  }

  lemma BatchEnds(c: Codec, log: seq<Rec>, rs: seq<Rec>)
    requires IsBatch(rs) && HasMeta(rs)
    ensures EndsInCommit(log + rs) && MetaOf(c, log + rs) == MetaOf(c, rs) && [] + rs == rs
  {
    hide MetaOf;
    MetaAppend(c, log, rs);
  }

  /** Compaction is a promise about the next flush: it rewrites the file to one record
      for every document, one for every index, and two. */
  lemma CompactShrinks(c: Codec, r: Run, ks: seq<Key>, idx: seq<Op>, nonces: seq<Bytes>, header: Bytes)
    returns (q: Run)
    requires Inv(c, r) && FileOk(r.s) && r.phase.Idle?
    requires Lists(ks, r.s.entries.Keys) && AllIdx(idx) && |header| == HEADER_SIZE
    requires var m := Next(c, r, CompactStep);
             FileOk(m.s) && Enabled(c, m, SnapshotStep(ks, idx)) ==>
               var a := Next(c, m, SnapshotStep(ks, idx));
               a.phase.Snapped? ==> |nonces| == |a.phase.st.ops| && AllFit(EncodeAll(c, a.phase.st.ops, nonces))
    ensures var m := Next(c, r, CompactStep);
            && FileOk(m.s) && Enabled(c, m, SnapshotStep(ks, idx))
            && var a := Next(c, m, SnapshotStep(ks, idx));
               && FileOk(a.s) && Enabled(c, a, WriteStep(nonces, header))
               && var b := Next(c, a, WriteStep(nonces, header));
                  && FileOk(b.s) && Enabled(c, b, ReconcileStep) && q == Next(c, b, ReconcileStep)
    ensures Inv(c, q) && q.plain == q.durable == r.plain && |q.s.log| == |r.plain| + |idx| + 2
  {
    var m := Next(c, r, CompactStep);
    assert m.s == Compacting(r.s) && m.s.entries == r.s.entries && m.s.compactForce;
    assert m.phase.Idle? && m.plain == r.plain;
    hide Inv, FileOk, Next, Enabled, Safe, EncodeAll, AllFit, Lists, AllIdx;
    CompactKeeps(c, r);
    Forced(c, r);
    EntryKeys(c, m);
    SnapshotStages(c, m, ks, idx);
    q := FlushTakesHold(c, m, ks, idx, nonces, header);
  }

  lemma Forced(c: Codec, r: Run)
    requires FileOk(r.s)
    ensures Next(c, r, CompactStep) == r.(s := Compacting(r.s))
  {
  }

  /** A crash right after a flush loses nothing, empty collections included: the store
      comes back clean, with every document cold and where it can be read. */
  lemma CrashAfterFlush(c: Codec, r: Run)
    requires Inv(c, r) && FileOk(r.s) && r.phase.Idle? && r.plain == r.durable
    requires EndsInCommit(r.s.log) && MetaOf(c, r.s.log) == Some(r.s.colls)
    ensures var q := Next(c, r, CrashStep);
            && Inv(c, q) && q.plain == r.plain && q.s.colls == r.s.colls && !q.s.dirty && q.s.pendingDels == []
            && q.s.entries.Keys == r.plain.Keys
            && forall k <- q.s.entries ::
                 q.s.entries[k].doc == None && ReadEntry(c, q.s, q.s.entries[k]) == Found(r.plain[k])
  {
    hide Inv, FileOk, File, ReadEntry, MetaOf, Recover, Decodable, Replay, LastMeta, Place, Layout;
    var q := Next(c, r, CrashStep);
    StepExact(c, r, CrashStep);
    EntryKeys(c, q);
    CrashRecoversHistory(c, r);
    RecoveredFile(c, r.s);
    SealedWhole(r.s.log);
    LastMetaIs(c, r.s.log, HEADER_SIZE);
    forall k | k in q.s.entries
      ensures ReadEntry(c, q.s, q.s.entries[k]) == Found(r.plain[k])
    {
      ReadRefines(c, q, k);
    }
  }

  /** What a slot reads as: a payload at hand as itself; without one, a slot that was
      never written as not found, and a place that does not lie in the file as an error. */
  lemma SlotReads(c: Codec, s: Store, e: Entry)
    requires FileOk(s)
    ensures e.doc.Some? ==> ReadEntry(c, s, e) == Found(e.doc.value)
    ensures e.doc.None? && e.recLen <= 0 ==> ReadEntry(c, s, e) == NotFound
    ensures e.doc.None? && e.recLen > 0 && (e.recOff < 0 || e.recOff + e.recLen > 152 + |Layout(c.crc, s.log)|) ==>
              ReadEntry(c, s, e) == Unreadable
  {
    hide Layout;
  }

  /** Before the first flush there is nothing to lose: a crash leaves a new store. */
  lemma CrashBeforeFlush(c: Codec, r: Run)
    requires FileOk(r.s) && r.s.log == []
    ensures var q := Next(c, r, CrashStep); q.s == Start(r.s.header).s && q.phase.Idle?
  {
  }
}
