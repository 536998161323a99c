/** Runs spelled out step by step: how a run is extended, and what the steps of a
    flush do to a store whose documents are all in memory or all clean. */
module FlushSteps {
  import opened ByteCodec
  import opened Values
  import opened RecordLog
  import opened TornTail
  import opened FlushProtocol
  import opened FlushRuns
  import opened FlushSafety
  import opened FlushCrash

  // ---------------------------------------------------------------- extending a run

  lemma RunStarts(c: Codec, header: Bytes)
    requires |header| == HEADER_SIZE
    ensures IsRun(c, [Start(header)], []) && FileOk(Start(header).s)
  {
  }

  lemma RunGoesOn(c: Codec, rs: seq<Run>, steps: seq<Step>, step: Step) returns (q: Run)
    requires IsRun(c, rs, steps)
    requires |rs| == |steps| + 1 ==> FileOk(rs[|steps|].s) && Enabled(c, rs[|steps|], step)
    ensures |rs| == |steps| + 1 && q == Next(c, rs[|steps|], step)
    ensures IsRun(c, rs + [q], steps + [step])
  {
    hide FileOk, Enabled, Next;
    q := Next(c, rs[|steps|], step);
    var qs, more := rs + [q], steps + [step];
    forall i | 0 <= i < |more|
      ensures FileOk(qs[i].s) && Enabled(c, qs[i], more[i]) && qs[i + 1] == Next(c, qs[i], more[i])
    {
      if i < |steps| { assert more[i] == steps[i] && qs[i + 1] == rs[i + 1]; }
    }
  }

  /** A step from a state that keeps the promise. */
  lemma StepOn(c: Codec, rs: seq<Run>, steps: seq<Step>, step: Step) returns (q: Run)
    requires IsRun(c, rs, steps)
    requires |rs| == |steps| + 1 ==> Inv(c, rs[|steps|]) && Enabled(c, rs[|steps|], step)
    ensures |rs| == |steps| + 1 && FileOk(rs[|steps|].s) && q == Next(c, rs[|steps|], step)
    ensures IsRun(c, rs + [q], steps + [step])
    ensures Safe(c, rs[|steps|], step) ==> Inv(c, q) && FileOk(q.s)
  {
    hide FileOk, Inv, Safe, Next, Enabled;
    assert |rs| == |steps| + 1;
    EntryKeys(c, rs[|steps|]);
    q := RunGoesOn(c, rs, steps, step);
    StepExact(c, rs[|steps|], step);
    if Safe(c, rs[|steps|], step) { EntryKeys(c, q); }
  }

  // ---------------------------------------------------------------- a new store

  /** Every document is resident. */
  predicate Warm(s: Store, docs: map<Key, Doc>)
  {
    s.entries.Keys == docs.Keys && forall k <- docs :: s.entries[k].doc == Some(docs[k])
  }

  /** Nothing has been flushed yet. */
  predicate NewStore(r: Run, header: Bytes, colls: set<Bytes>, docs: map<Key, Doc>)
  {
    && r.s == Store(r.s.entries, colls, [], r.s.dirtyGen, true, false, false, false, header, [])
    && r.phase.Idle? && r.plain == docs && Warm(r.s, docs)
  }

  lemma StartsNew(c: Codec, header: Bytes) returns (rs: seq<Run>)
    requires Inverse(c) && |header| == HEADER_SIZE
    ensures |rs| == 1 && IsRun(c, rs, []) && Inv(c, rs[0]) && NewStore(rs[0], header, {}, map[])
  {
    StartKeeps(c, header);
    RunStarts(c, header);
    rs := [Start(header)];
  }

  lemma CreateNew(c: Codec, r: Run, header: Bytes, colls: set<Bytes>, docs: map<Key, Doc>, coll: Bytes)
    requires FileOk(r.s) && NewStore(r, header, colls, docs)
    ensures Enabled(c, r, CreateCollStep(coll)) && Safe(c, r, CreateCollStep(coll))
    ensures NewStore(Next(c, r, CreateCollStep(coll)), header, colls + {coll}, docs)
  {
  }

  lemma PutNew(c: Codec, r: Run, header: Bytes, colls: set<Bytes>, docs: map<Key, Doc>, k: Key, d: Doc)
    requires FileOk(r.s) && NewStore(r, header, colls, docs)
    ensures Enabled(c, r, PutStep(k, d)) && Safe(c, r, PutStep(k, d))
    ensures NewStore(Next(c, r, PutStep(k, d)), header, colls + {k.coll}, docs[k := d])
  {
  }

  // ---------------------------------------------------------------- snapshots

  function DocOps(ks: seq<Key>, docs: map<Key, Doc>): seq<Op>
    requires forall i | 0 <= i < |ks| :: ks[i] in docs
  {
    seq(|ks|, i requires 0 <= i < |ks| => DocOp(ks[i], docs[ks[i]]))
  }

  lemma {:induction false} StageWarm(c: Codec, s: Store, ks: seq<Key>, docs: map<Key, Doc>)
    requires FileOk(s) && Warm(s, docs) && forall i | 0 <= i < |ks| :: ks[i] in docs
    ensures StageDocs(c, s, ks, true) == Some(DocOps(ks, docs))
  {
    hide AllFit;
    if ks != [] {
      var n := |ks| - 1;
      StageWarm(c, s, ks[..n], docs);
      assert DocOps(ks, docs) == DocOps(ks[..n], docs) + [DocOp(ks[n], docs[ks[n]])];
    }
  }

  lemma {:induction false} StageClean(c: Codec, s: Store, ks: seq<Key>)
    requires FileOk(s) && forall i | 0 <= i < |ks| :: ks[i] in s.entries && !s.entries[ks[i]].dirty
    ensures StageDocs(c, s, ks, false) == Some([])
  {
    hide ReadEntry, AllFit;
    if ks != [] { StageClean(c, s, ks[..|ks| - 1]); }
  }

  /** A full rewrite stages every document, and no deletion. */
  lemma FullSnapshot(c: Codec, r: Run, ks: seq<Key>, idx: seq<Op>)
    requires FileOk(r.s) && r.phase.Idle? && Lists(ks, r.s.entries.Keys) && AllIdx(idx) && Warm(r.s, r.plain)
    requires r.s.dirty && (!r.s.sawFile || r.s.compactForce)
    ensures forall i | 0 <= i < |ks| :: ks[i] in r.plain
    ensures Enabled(c, r, SnapshotStep(ks, idx)) && Safe(c, r, SnapshotStep(ks, idx))
    ensures var ops := OrderOps([], DocOps(ks, r.plain), r.s.colls, idx);
            Next(c, r, SnapshotStep(ks, idx))
            == r.(s := r.s.(flushInProgress := true, compactForce := false),
                  phase := Snapped(FlushState(true, r.s.dirtyGen, [], ops), r.plain))
  {
    hide AllFit, OrderOps, DocOps, StageDocs;
    StageWarm(c, r.s, ks, r.plain);
    assert forall k <- r.s.entries :: Loaded(c, r.s, r.s.entries[k]) == r.s.entries[k];
  }

  /** An append stages the queued deletions, and no clean document. */
  lemma CleanSnapshot(c: Codec, r: Run, ks: seq<Key>, idx: seq<Op>)
    requires FileOk(r.s) && r.phase.Idle? && Lists(ks, r.s.entries.Keys) && AllIdx(idx)
    requires r.s.dirty && r.s.sawFile && !r.s.compactForce && forall k <- r.s.entries :: !r.s.entries[k].dirty
    ensures Enabled(c, r, SnapshotStep(ks, idx)) && Safe(c, r, SnapshotStep(ks, idx))
    ensures var ops := OrderOps(r.s.pendingDels, [], r.s.colls, idx);
            Next(c, r, SnapshotStep(ks, idx))
            == r.(s := r.s.(flushInProgress := true),
                  phase := Snapped(FlushState(false, r.s.dirtyGen, r.s.pendingDels, ops), r.plain))
  {
    hide AllFit, OrderOps, StageDocs, Loaded;
    StageClean(c, r.s, ks);
  }

  // ---------------------------------------------------------------- writes

  lemma FullWrite(c: Codec, r: Run, nonces: seq<Bytes>, header: Bytes)
    requires FileOk(r.s) && r.phase.Snapped? && |nonces| == |r.phase.st.ops| && |header| == HEADER_SIZE
    requires r.phase.st.full && AllFit(EncodeAll(c, r.phase.st.ops, nonces))
    ensures Enabled(c, r, WriteStep(nonces, header)) && Safe(c, r, WriteStep(nonces, header))
    ensures var q := Next(c, r, WriteStep(nonces, header));
            && q.s == r.s.(header := header, log := EncodeAll(c, r.phase.st.ops, nonces))
            && q.phase.Written? && q.phase.st == r.phase.st && q.phase.snap == r.phase.snap
            && |q.phase.places| == |q.phase.st.ops|
            && q.phase.before == r.s.log && q.plain == r.plain && q.durable == r.phase.snap
  {
    hide EncodeAll, Place;
  }

  lemma AppendWrite(c: Codec, r: Run, nonces: seq<Bytes>, header: Bytes)
    requires FileOk(r.s) && r.phase.Snapped? && |nonces| == |r.phase.st.ops| && |header| == HEADER_SIZE
    requires !r.phase.st.full && AllFit(EncodeAll(c, r.phase.st.ops, nonces))
    ensures Enabled(c, r, WriteStep(nonces, header)) && Safe(c, r, WriteStep(nonces, header))
    ensures var q := Next(c, r, WriteStep(nonces, header));
            && q.s == r.s.(log := r.s.log + EncodeAll(c, r.phase.st.ops, nonces))
            && q.phase.Written? && q.phase.st == r.phase.st && q.phase.snap == r.phase.snap
            && |q.phase.places| == |q.phase.st.ops|
            && q.plain == r.plain && q.durable == r.phase.snap && FileOk(q.s)
  {
    hide EncodeAll, Place, Layout;
  }

  // ---------------------------------------------------------------- reconciling

  lemma Reconciling(c: Codec, r: Run)
    requires FileOk(r.s) && r.phase.Written? && |r.phase.places| == |r.phase.st.ops|
    ensures Enabled(c, r, ReconcileStep)
    ensures var q := Next(c, r, ReconcileStep);
            && q.s == r.s.(flushInProgress := false, sawFile := true, entries := q.s.entries,
                           pendingDels := RemainingDels(r.s, r.phase.st),
                           dirty := r.s.dirty && r.s.dirtyGen != r.phase.st.gen)
            && q.s.entries.Keys == r.s.entries.Keys && q.phase.Idle? && q.plain == r.plain && q.durable == r.durable
            && FileOk(q.s)
  {
    hide OffsetFor, Settled, AllFit, KeepLater;
  }

  lemma QuietWhenClean(c: Codec, r: Run)
    requires Inv(c, r)
    ensures !r.s.dirty ==> r.s.pendingDels == [] && forall k <- r.s.entries :: !r.s.entries[k].dirty
  {
  }

  /** The store right after a flush during which nothing happened. */
  predicate Flushed(r: Run, header: Bytes, log: seq<Rec>, colls: set<Bytes>, docs: map<Key, Doc>)
  {
    && r.s == Store(r.s.entries, colls, [], r.s.dirtyGen, false, true, false, false, header, log)
    && r.phase.Idle? && r.plain == r.durable == docs && r.s.entries.Keys == docs.Keys
    && forall k <- r.s.entries :: !r.s.entries[k].dirty
  }

  /** From a written state with nothing mutated since the snapshot. */
  lemma ReconcileQuietly(c: Codec, r: Run)
    requires Inv(c, r) && FileOk(r.s) && r.phase.Written? && |r.phase.places| == |r.phase.st.ops|
    requires r.s.dirtyGen == r.phase.st.gen && !r.s.compactForce && r.plain == r.phase.snap
    requires r.s.entries.Keys == r.plain.Keys
    ensures Enabled(c, r, ReconcileStep) && Safe(c, r, ReconcileStep)
    ensures Flushed(Next(c, r, ReconcileStep), r.s.header, r.s.log, r.s.colls, r.plain)
    ensures var q := Next(c, r, ReconcileStep);
            forall k <- r.s.entries :: k in q.s.entries && q.s.entries[k].doc == r.s.entries[k].doc
  {
    hide Inv, AllFit, Next, Enabled, Safe, RemainingDels;
    Reconciling(c, r);
    QuietReconcileSafe(c, r);
    KeepsPayloads(c, r);
    QuietWhenClean(c, Next(c, r, ReconcileStep));
  }

  lemma QuietReconcileSafe(c: Codec, r: Run)
    requires Inv(c, r) && FileOk(r.s) && Enabled(c, r, ReconcileStep)
    requires r.plain == r.phase.snap && r.s.entries.Keys == r.plain.Keys
    ensures Safe(c, r, ReconcileStep) && Inv(c, Next(c, r, ReconcileStep)) && r.durable == r.phase.snap
  {
    hide Inv, Next;
    WrittenFacts(c, r);
    StepExact(c, r, ReconcileStep);
  }

  lemma KeepsPayloads(c: Codec, r: Run)
    requires FileOk(r.s) && Enabled(c, r, ReconcileStep)
    ensures var q := Next(c, r, ReconcileStep);
            forall k <- r.s.entries :: k in q.s.entries && q.s.entries[k].doc == r.s.entries[k].doc
  {
    hide OffsetFor, KeepLater, AllFit;
  }

  /** A whole first flush: snapshot, write and reconcile, with nothing in between. */
  lemma FlushNew(c: Codec, was: seq<Run>, done: seq<Step>, header: Bytes, colls: set<Bytes>, docs: map<Key, Doc>,
      ks: seq<Key>, idx: seq<Op>, nonces: seq<Bytes>) returns (rs: seq<Run>)
    requires IsRun(c, was, done) && |was| == |done| + 1 && Inv(c, was[|done|]) && |header| == HEADER_SIZE
    requires NewStore(was[|done|], header, colls, docs) && Lists(ks, docs.Keys) && AllIdx(idx)
    requires var ops := OrderOps([], DocOps(ks, docs), colls, idx);
             |nonces| == |ops| && AllFit(EncodeAll(c, ops, nonces))
    ensures |rs| == |was| + 3
    ensures IsRun(c, rs, done + [SnapshotStep(ks, idx)] + [WriteStep(nonces, header)] + [ReconcileStep])
    ensures Inv(c, rs[|done| + 3]) && FileOk(rs[|done| + 3].s) && Warm(rs[|done| + 3].s, docs)
    ensures Flushed(rs[|done| + 3], header, EncodeAll(c, OrderOps([], DocOps(ks, docs), colls, idx), nonces),
                    colls, docs)
  {
    hide Inv, IsRun, Next, Enabled, Safe, FileOk, EncodeAll, OrderOps, DocOps, Lists, AllIdx, AllFit;
    EntryKeys(c, was[|done|]);
    FullSnapshot(c, was[|done|], ks, idx);
    var a := StepOn(c, was, done, SnapshotStep(ks, idx));
    FullWrite(c, a, nonces, header);
    var b := StepOn(c, was + [a], done + [SnapshotStep(ks, idx)], WriteStep(nonces, header));
    ReconcileQuietly(c, b);
    var q := StepOn(c, was + [a] + [b], done + [SnapshotStep(ks, idx)] + [WriteStep(nonces, header)], ReconcileStep);
    rs := was + [a] + [b] + [q];
  }
}
