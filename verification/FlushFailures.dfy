/** Runs in which the durability promise fails. Each starts from a new store, spells
    out its steps, and ends in a state that shows the damage; FlushCrash.Safe says
    for every run which step is to blame. */
module FlushFailures {
  import opened ByteCodec
  import opened Values
  import opened RecordLog
  import opened TornTail
  import opened Scan
  import opened FlushProtocol
  import opened FlushRuns
  import opened FlushSafety
  import opened FlushCrash
  import opened FlushSteps

  /** The batch of a first flush of one document. */
  function FirstOps(k: Key, d: Doc, idx: seq<Op>): seq<Op>
  {
    OrderOps([], [DocOp(k, d)], {k.coll}, idx)
  }

  lemma OneDoc(k: Key, d: Doc, idx: seq<Op>)
    ensures Lists([k], map[k := d].Keys)
    ensures OrderOps([], DocOps([k], map[k := d]), {k.coll}, idx) == FirstOps(k, d, idx)
  {
    assert DocOps([k], map[k := d]) == [DocOp(k, d)];
  }

  // ---------------------------------------------------------------- a deletion is forgotten

  /** A document is stored, the first flush begins, the document is deleted while the
      file is being written, and the flush finishes. The store no longer has the
      document and has forgotten the deletion, but the file holds it: it comes back
      at the next open. */
  lemma FirstFlushResurrects(c: Codec, header: Bytes, k: Key, d: Doc, nonces: seq<Bytes>) returns (rs: seq<Run>)
    requires Inverse(c) && |header| == HEADER_SIZE
    requires |nonces| == |FirstOps(k, d, [])| && AllFit(EncodeAll(c, FirstOps(k, d, []), nonces))
    ensures |rs| == 6
    ensures IsRun(c, rs, [PutStep(k, d), SnapshotStep([k], []), WriteStep(nonces, header), RemoveStep(k),
                          ReconcileStep])
    ensures var r := rs[5];
            && FileOk(r.s) && r.phase.Idle? && k !in r.plain && k !in r.s.entries && r.s.pendingDels == []
            && Recover(c, File(c, r.s)).Docs? && k in Recover(c, File(c, r.s)).entries
  {
    hide Inv, Inverse, EncodeAll, FileOk, IsRun, Recover, File, Next, Safe, Enabled, AllFit, OrderOps, Lists;
    OneDoc(k, d, []);
    rs := StartsNew(c, header);
    EntryKeys(c, rs[0]);
    PutNew(c, rs[0], header, {}, map[], k, d);
    var r1 := StepOn(c, rs, [], PutStep(k, d));
    rs := rs + [r1];
    assert {} + {k.coll} == {k.coll} && map[][k := d] == map[k := d];
    FullSnapshot(c, r1, [k], []);
    var r2 := StepOn(c, rs, [] + [PutStep(k, d)], SnapshotStep([k], []));
    rs := rs + [r2];
    FullWrite(c, r2, nonces, header);
    var steps := [] + [PutStep(k, d)] + [SnapshotStep([k], [])];
    var r3 := StepOn(c, rs, steps, WriteStep(nonces, header));
    rs, steps := rs + [r3], steps + [WriteStep(nonces, header)];
    var last := Resurrects(c, rs, steps, k);
    rs, steps := rs + last, steps + [RemoveStep(k)] + [ReconcileStep];
    assert steps == [PutStep(k, d), SnapshotStep([k], []), WriteStep(nonces, header), RemoveStep(k), ReconcileStep];
  }

  /** The last two steps: a deletion while the file is being written, and the
      reconciliation. */
  lemma Resurrects(c: Codec, rs: seq<Run>, steps: seq<Step>, k: Key) returns (last: seq<Run>)
    requires IsRun(c, rs, steps) && |rs| == |steps| + 1
    requires var r := rs[|steps|]; Inv(c, r) && r.phase.Written? && r.phase.st.full && k in r.durable
    requires k in rs[|steps|].s.entries && rs[|steps|].s.entries[k].doc.Some?
    ensures |last| == 2 && IsRun(c, rs + last, steps + [RemoveStep(k)] + [ReconcileStep])
    ensures var r := last[1];
            && FileOk(r.s) && r.phase.Idle? && k !in r.plain && k !in r.s.entries && r.s.pendingDels == []
            && Recover(c, File(c, r.s)).Docs? && k in Recover(c, File(c, r.s)).entries
  {
    hide Inv, FileOk, IsRun, Recover, File, Next, Safe, Enabled, SinceSnapshot, PlacesOk, DecodeDocRecord, DelsOk,
      EntriesOk;
    EntryKeys(c, rs[|steps|]);
    RemoveWarm(c, rs[|steps|], k);
    var a := StepOn(c, rs, steps, RemoveStep(k));
    WrittenFacts(c, a);
    CrashRecoversHistory(c, a);
    Reconciling(c, a);
    var b := RunGoesOn(c, rs + [a], steps + [RemoveStep(k)], ReconcileStep);
    SameFile(c, a, b);
    last := [a, b];
    assert rs + last == rs + [a] + [b];
  }

  lemma RemoveWarm(c: Codec, r: Run, k: Key)
    requires FileOk(r.s) && k in r.s.entries && r.s.entries[k].doc.Some?
    ensures Enabled(c, r, RemoveStep(k)) && Safe(c, r, RemoveStep(k))
    ensures Next(c, r, RemoveStep(k)) == Mutated(r, Remove(r.s, k), r.plain - {k})
  {
  }

  lemma SameFile(c: Codec, r: Run, q: Run)
    requires FileOk(r.s) && q.s.header == r.s.header && q.s.log == r.s.log
    ensures FileOk(q.s) && File(c, q.s) == File(c, r.s)
  {
  }

  // ---------------------------------------------------------------- a dropped document comes back

  /** A collection is created and dropped again: its documents, none at first, are
      deleted one by one; before the last step a document is stored in it and a flush
      makes it durable. The last step throws the document away with the collection and
      queues nothing. Then the collection is created anew and flushed: the file holds a
      document the store never had in its new collection. */
  lemma DroppedComesBack(c: Codec, header: Bytes, k: Key, d: Doc, nonces: seq<Bytes>, later: seq<Bytes>)
    returns (rs: seq<Run>)
    requires Inverse(c) && |header| == HEADER_SIZE
    requires |nonces| == |FirstOps(k, d, [])| && AllFit(EncodeAll(c, FirstOps(k, d, []), nonces))
    requires |later| == |OrderOps([], [], {k.coll}, [])| && AllFit(EncodeAll(c, OrderOps([], [], {k.coll}, []), later))
    ensures |rs| == 11
    ensures IsRun(c, rs, [CreateCollStep(k.coll), PutStep(k, d), SnapshotStep([k], []), WriteStep(nonces, header),
                          ReconcileStep, DropCollStep(k.coll), CreateCollStep(k.coll), SnapshotStep([], []),
                          WriteStep(later, header), ReconcileStep])
    ensures var r := rs[10];
            && FileOk(r.s) && r.phase.Idle? && r.plain == map[]
            && Recover(c, File(c, r.s)).Docs? && k in Recover(c, File(c, r.s)).entries
  {
    hide Inv, Inverse, EncodeAll, FileOk, IsRun, Next, Enabled, Safe, Flushed, Emptied, FirstOps, Recover, File, OrderOps,
      AllFit, Lists;
    rs := CreatedAndFlushed(c, header, k, d, [], nonces);
    var steps := CreatedSteps(header, k, d, [], nonces);
    var log := EncodeAll(c, FirstOps(k, d, []), nonces);
    DropTheOnly(c, rs[5], header, k, d, log);
    var r6 := RunGoesOn(c, rs, steps, DropCollStep(k.coll));
    rs, steps := rs + [r6], steps + [DropCollStep(k.coll)];
    CreateAgain(c, r6, header, log, k.coll);
    var r7 := RunGoesOn(c, rs, steps, CreateCollStep(k.coll));
    rs, steps := rs + [r7], steps + [CreateCollStep(k.coll)];
    StageNothing(c, r7, header, log, k.coll);
    var r8 := RunGoesOn(c, rs, steps, SnapshotStep([], []));
    rs, steps := rs + [r8], steps + [SnapshotStep([], [])];
    AppendWrite(c, r8, later, header);
    var r9 := RunGoesOn(c, rs, steps, WriteStep(later, header));
    rs, steps := rs + [r9], steps + [WriteStep(later, header)];
    Reconciling(c, r9);
    var r10 := RunGoesOn(c, rs, steps, ReconcileStep);
    rs, steps := rs + [r10], steps + [ReconcileStep];
    EmptiedPlain(r8, header, log, {k.coll});
    HeldAfterFlush(c, rs[5], header, log, k, d);
    StillInFile(c, r10, header, log, k, [], later);
    assert steps == [CreateCollStep(k.coll), PutStep(k, d), SnapshotStep([k], []), WriteStep(nonces, header),
                     ReconcileStep, DropCollStep(k.coll), CreateCollStep(k.coll), SnapshotStep([], []),
                     WriteStep(later, header), ReconcileStep];
  }

  function CreatedSteps(header: Bytes, k: Key, d: Doc, idx: seq<Op>, nonces: seq<Bytes>): seq<Step>
  {
    [CreateCollStep(k.coll), PutStep(k, d), SnapshotStep([k], idx), WriteStep(nonces, header), ReconcileStep]
  }

  /** A collection with one document in it, flushed. */
  lemma CreatedAndFlushed(c: Codec, header: Bytes, k: Key, d: Doc, idx: seq<Op>, nonces: seq<Bytes>)
    returns (rs: seq<Run>)
    requires Inverse(c) && |header| == HEADER_SIZE && AllIdx(idx)
    requires |nonces| == |FirstOps(k, d, idx)| && AllFit(EncodeAll(c, FirstOps(k, d, idx), nonces))
    ensures |rs| == 6 && IsRun(c, rs, CreatedSteps(header, k, d, idx, nonces))
    ensures Inv(c, rs[5]) && FileOk(rs[5].s) && Warm(rs[5].s, map[k := d])
    ensures Flushed(rs[5], header, EncodeAll(c, FirstOps(k, d, idx), nonces), {k.coll}, map[k := d])
  {
    hide Inv, Inverse, EncodeAll, FileOk, IsRun, Safe, Next, Enabled, FirstOps, OrderOps, Flushed, Lists, NewStore, Warm,
      AllIdx, DocOps;
    OneDoc(k, d, idx);
    rs := StartsNew(c, header);
    EntryKeys(c, rs[0]);
    CreateNew(c, rs[0], header, {}, map[], k.coll);
    var r1 := StepOn(c, rs, [], CreateCollStep(k.coll));
    rs := rs + [r1];
    assert {} + {k.coll} == {k.coll} && {k.coll} + {k.coll} == {k.coll};
    PutNew(c, r1, header, {k.coll}, map[], k, d);
    var r2 := StepOn(c, rs, [] + [CreateCollStep(k.coll)], PutStep(k, d));
    rs := rs + [r2];
    var steps := [] + [CreateCollStep(k.coll)] + [PutStep(k, d)];
    assert map[][k := d] == map[k := d];
    rs := FlushNew(c, rs, steps, header, {k.coll}, map[k := d], [k], idx, nonces);
    assert steps + [SnapshotStep([k], idx)] + [WriteStep(nonces, header)] + [ReconcileStep]
        == CreatedSteps(header, k, d, idx, nonces);
  }

  /** No document in memory, whatever the file holds. */
  ghost predicate Emptied(r: Run, header: Bytes, log: seq<Rec>, colls: set<Bytes>)
  {
    && r.s == Store(map[], colls, [], r.s.dirtyGen, true, true, false, r.s.flushInProgress, header, log)
    && r.plain == map[]
  }

  lemma EmptiedPlain(r: Run, header: Bytes, log: seq<Rec>, colls: set<Bytes>)
    requires Emptied(r, header, log, colls)
    ensures r.plain == map[] && r.s.header == header && r.s.log == log
  {
  }

  lemma DropTheOnly(c: Codec, r: Run, header: Bytes, k: Key, d: Doc, log: seq<Rec>)
    requires FileOk(r.s) && Flushed(r, header, log, {k.coll}, map[k := d])
    ensures Enabled(c, r, DropCollStep(k.coll))
    ensures var q := Next(c, r, DropCollStep(k.coll)); FileOk(q.s) && q.phase.Idle? && Emptied(q, header, log, {})
  {
    hide AllFit;
  }

  lemma CreateAgain(c: Codec, r: Run, header: Bytes, log: seq<Rec>, coll: Bytes)
    requires FileOk(r.s) && r.phase.Idle? && Emptied(r, header, log, {})
    ensures Enabled(c, r, CreateCollStep(coll))
    ensures var q := Next(c, r, CreateCollStep(coll)); FileOk(q.s) && q.phase.Idle? && Emptied(q, header, log, {coll})
  {
    hide AllFit;
  }

  lemma StageNothing(c: Codec, r: Run, header: Bytes, log: seq<Rec>, coll: Bytes)
    requires FileOk(r.s) && r.phase.Idle? && Emptied(r, header, log, {coll})
    ensures Enabled(c, r, SnapshotStep([], []))
    ensures var q := Next(c, r, SnapshotStep([], []));
            && FileOk(q.s) && Emptied(q, header, log, {coll})
            && q.phase.Snapped? && !q.phase.st.full && q.phase.st.ops == OrderOps([], [], {coll}, [])
  {
    CleanSnapshot(c, r, [], []);
    hide AllFit, OrderOps;
  }

  /** What a flush left in the file is still there after a batch that only lists. */
  lemma StillInFile(c: Codec, r: Run, header: Bytes, log: seq<Rec>, k: Key, idx: seq<Op>, later: seq<Bytes>)
    requires Inverse(c) && AllIdx(idx) && |header| == HEADER_SIZE
    requires |later| == |OrderOps([], [], {k.coll}, idx)| && AllFit(EncodeAll(c, OrderOps([], [], {k.coll}, idx), later))
    requires FileOk(r.s) && r.s.header == header
    requires r.s.log == log + EncodeAll(c, OrderOps([], [], {k.coll}, idx), later)
    requires k in Contents(map[], log) && Readable(c, log)
    ensures Recover(c, File(c, r.s)).Docs? && k in Recover(c, File(c, r.s)).entries
  {
    var more := EncodeAll(c, OrderOps([], [], {k.coll}, idx), later);
    BatchMeta(c, [], [], {k.coll}, idx, later);
    EncodedReadable(c, OrderOps([], [], {k.coll}, idx), later);
    IdleBatch(c, {k.coll}, idx, later);
    hide EncodeAll, OrderOps, Inverse, Recover, Layout, Contents, Readable, IsBatch;
    StillHeld(c, header, log, more, k);
  }

  lemma IdleBatch(c: Codec, colls: set<Bytes>, idx: seq<Op>, later: seq<Bytes>)
    requires AllIdx(idx) && |later| == |OrderOps([], [], colls, idx)|
    ensures Inert(EncodeAll(c, OrderOps([], [], colls, idx), later))
  {
    var ops := OrderOps([], [], colls, idx);
    assert DelOps([]) == [];
    forall i | 0 <= i < |ops|
      ensures !ops[i].DocOp? && !ops[i].DelOp?
    {
      assert 1 <= i < |ops| - 1 ==> ops[i] == idx[i - 1];
    }
  }

  /** Inert records leave a held key held. */
  lemma StillHeld(c: Codec, header: Bytes, log: seq<Rec>, more: seq<Rec>, k: Key)
    requires |header| == HEADER_SIZE && AllFit(log + more) && k in Contents(map[], log)
    requires Readable(c, log) && Readable(c, more) && Inert(more) && HasMeta(more) && EndsInCommit(more)
    requires MetaOf(c, more) == Some({k.coll})
    ensures var r := Recover(c, header + Layout(c.crc, log + more)); r.Docs? && k in r.entries
  {
    hide Recover, Layout, Committed, Shown, Contents, MetaOf, Readable, HasMeta, Inert;
    InertOnDisk(c, log, more, k);
    ReadableAppend(c, log, more);
    MetaAppend(c, log, more);
    RecoverWhole(c, header, log + more);
    ShownCommitted(c, log + more);
    ShownKeys(c, Committed(c, log + more));
  }

  lemma HeldAfterFlush(c: Codec, r: Run, header: Bytes, log: seq<Rec>, k: Key, d: Doc)
    requires Inv(c, r) && Flushed(r, header, log, {k.coll}, map[k := d])
    ensures k in Contents(map[], log) && Readable(c, log) && AllFit(log) && log != []
  {
    hide Inv, Contents, Readable, AllFit;
    DurableLog(c, r);
    HeldKey(c, log, r.durable, k);
    HeldLog(c, log, r.durable, k);
  }

  lemma HeldLog(c: Codec, log: seq<Rec>, docs: map<Key, Doc>, k: Key)
    requires LogOk(c, log, docs) && k in docs
    ensures log != []
  {
  }

  lemma HeldKey(c: Codec, log: seq<Rec>, docs: map<Key, Doc>, k: Key)
    requires LogOk(c, log, docs) && k in docs
    ensures k in Contents(map[], log) && Readable(c, log)
  {
  }

  lemma ShownKeys(c: Codec, r: Recovered)
    ensures Shown(c, r).Some? <==> r.Docs?
    ensures r.Docs? ==> Shown(c, r).value.Keys == r.entries.Keys
  {
  }

  // ---------------------------------------------------------------- a torn append resurfaces

  /** A second document is stored in the collection of the first, and its append is cut
      in the middle, behind its record: the reopened store shows only the first. The
      next flush, which writes no document at all, brings the second one in. */
  lemma TornTailResurfaces(c: Codec, header: Bytes, k: Key, d: Doc, k2: Key, d2: Doc, idx: seq<seq<Op>>,
      nonces: seq<seq<Bytes>>) returns (rs: seq<Run>)
    requires Inverse(c) && |header| == HEADER_SIZE && k != k2 && k.coll == k2.coll
    requires |idx| == 3 == |nonces| && AllIdx(idx[0]) && AllIdx(idx[1]) && AllIdx(idx[2])
    requires |nonces[0]| == |FirstOps(k, d, idx[0])| && AllFit(EncodeAll(c, FirstOps(k, d, idx[0]), nonces[0]))
    requires |nonces[1]| == |FirstOps(k2, d2, idx[1])| && AllFit(EncodeAll(c, FirstOps(k2, d2, idx[1]), nonces[1]))
    requires var ops := OrderOps([], [], {k.coll}, idx[2]);
             |nonces[2]| == |ops| && AllFit(EncodeAll(c, ops, nonces[2]))
    ensures |rs| == 13
    ensures IsRun(c, rs, CreatedSteps(header, k, d, idx[0], nonces[0]) + TornSteps(c, header, k, k2, d2, idx, nonces))
    // after the reopen, and after the flush that follows
    ensures rs[8].plain == rs[12].plain == rs[12].durable == map[k := d]
    ensures rs[8].s.entries.Keys == {k} == rs[12].s.entries.Keys
    ensures rs[12].s.log == rs[8].s.log + EncodeAll(c, OrderOps([], [], {k.coll}, idx[2]), nonces[2])
    ensures rs[12].s.header == header && FileOk(rs[12].s) && rs[12].phase.Idle?
    ensures var r := Recover(c, File(c, rs[12].s)); r.Docs? && k in r.entries && k2 in r.entries
  {
    hide Inv, Inverse, EncodeAll, FileOk, IsRun, Next, Enabled, Safe, Flushed, FirstOps, Recover, File, OrderOps, AllFit,
      Lists, AllIdx, BuildRecord, OnlyFirst, Warm,
      Sealed, MetaOf, Contents, Readable, OneDirty;
    rs := CreatedAndFlushed(c, header, k, d, idx[0], nonces[0]);
    var steps := CreatedSteps(header, k, d, idx[0], nonces[0]);
    var log, list := EncodeAll(c, FirstOps(k, d, idx[0]), nonces[0]), EncodeAll(c, FirstOps(k2, d2, idx[1]), nonces[1]);
    HeldAfterFlush(c, rs[5], header, log, k, d);
    FirstMeta(c, k, d, idx[0], nonces[0]);
    PutSecond(c, rs[5], header, log, k, d, k2, d2);
    var r6 := StepOn(c, rs, steps, PutStep(k2, d2));
    rs, steps := rs + [r6], steps + [PutStep(k2, d2)];
    StageSecond(c, r6, header, log, k, d, k2, d2, idx[1]);
    var r7 := StepOn(c, rs, steps, SnapshotStep([k, k2], idx[1]));
    rs, steps := rs + [r7], steps + [SnapshotStep([k, k2], idx[1])];
    var crash := CrashInWriteStep(nonces[1], FirstSize(c, k2, d2, idx[1], nonces[1]));
    TearAfterDoc(c, r7, header, log, k, d, k2, d2, idx[1], nonces[1]);
    var r8 := StepOn(c, rs, steps, crash);
    rs, steps := rs + [r8], steps + [crash];
    TailHolds(c, log, k, k2, d2, idx[1], nonces[1]);
    OnlyFirstFacts(r8, header, log + list[..1], k, d);
    var more := FlushNothing(c, rs, steps, header, log + list[..1], k, d, idx[2], nonces[2]);
    rs, steps := rs + more, steps + [SchemaStep] + [SnapshotStep([k], idx[2])] + [WriteStep(nonces[2], header)]
                            + [ReconcileStep];
    StillInFile(c, rs[12], header, log + list[..1], k, idx[2], nonces[2]);
    StillInFile(c, rs[12], header, log + list[..1], k2, idx[2], nonces[2]);
    assert steps == CreatedSteps(header, k, d, idx[0], nonces[0]) + TornSteps(c, header, k, k2, d2, idx, nonces);
  }

  /** The size of the first record of a batch. */
  function FirstSize(c: Codec, k: Key, d: Doc, idx: seq<Op>, nonces: seq<Bytes>): nat
    requires |nonces| == |FirstOps(k, d, idx)| && AllFit(EncodeAll(c, FirstOps(k, d, idx), nonces))
  {
    |BuildRecord(c.crc, EncodeAll(c, FirstOps(k, d, idx), nonces)[0])|
  }

  function TornSteps(c: Codec, header: Bytes, k: Key, k2: Key, d2: Doc, idx: seq<seq<Op>>, nonces: seq<seq<Bytes>>)
    : seq<Step>
    requires |idx| == 3 == |nonces|
    requires |nonces[1]| == |FirstOps(k2, d2, idx[1])| && AllFit(EncodeAll(c, FirstOps(k2, d2, idx[1]), nonces[1]))
  {
    [PutStep(k2, d2), SnapshotStep([k, k2], idx[1]),
     CrashInWriteStep(nonces[1], FirstSize(c, k2, d2, idx[1], nonces[1])),
     SchemaStep, SnapshotStep([k], idx[2]), WriteStep(nonces[2], header), ReconcileStep]
  }

  lemma PutSecond(c: Codec, r: Run, header: Bytes, log: seq<Rec>, k: Key, d: Doc, k2: Key, d2: Doc)
    requires FileOk(r.s) && Flushed(r, header, log, {k.coll}, map[k := d]) && Warm(r.s, map[k := d])
    requires k != k2 && k.coll == k2.coll
    ensures Enabled(c, r, PutStep(k2, d2)) && Safe(c, r, PutStep(k2, d2))
    ensures OneDirty(Next(c, r, PutStep(k2, d2)), header, log, k, d, k2, d2)
  {
    hide AllFit;
  }

  /** One clean document, one dirty one, both resident. */
  ghost predicate OneDirty(r: Run, header: Bytes, log: seq<Rec>, k: Key, d: Doc, k2: Key, d2: Doc)
  {
    && r.s == Store(r.s.entries, {k.coll}, [], r.s.dirtyGen, true, true, false, false, header, log)
    && r.s.entries.Keys == {k, k2} && !r.s.entries[k].dirty && r.s.entries[k].doc == Some(d)
    && r.s.entries[k2].dirty && r.s.entries[k2].doc == Some(d2)
    && r.phase.Idle? && r.plain == map[k := d, k2 := d2] && r.durable == map[k := d]
  }

  lemma StageSecond(c: Codec, r: Run, header: Bytes, log: seq<Rec>, k: Key, d: Doc, k2: Key, d2: Doc, idx: seq<Op>)
    requires FileOk(r.s) && k != k2 && k.coll == k2.coll && AllIdx(idx) && OneDirty(r, header, log, k, d, k2, d2)
    ensures Enabled(c, r, SnapshotStep([k, k2], idx)) && Safe(c, r, SnapshotStep([k, k2], idx))
    ensures var q := Next(c, r, SnapshotStep([k, k2], idx));
            && q.s == r.s.(flushInProgress := true, entries := q.s.entries)
            && q.phase.Snapped? && !q.phase.st.full && q.phase.st.ops == FirstOps(k2, d2, idx)
            && q.s.log == log && q.s.header == header && q.durable == map[k := d]
  {
    hide AllFit, Loaded, OrderOps;
    StageDirty(c, r.s, k, k2, d2);
  }

  lemma StageDirty(c: Codec, s: Store, k: Key, k2: Key, d2: Doc)
    requires FileOk(s) && k in s.entries && k2 in s.entries && !s.entries[k].dirty
    requires s.entries[k2].dirty && s.entries[k2].doc == Some(d2)
    ensures StageDocs(c, s, [k, k2], false) == Some([DocOp(k2, d2)])
  {
    hide AllFit;
    StageClean(c, s, [k]);
    assert [k, k2][..1] == [k];
    assert [] + [DocOp(k2, d2)] == [DocOp(k2, d2)];
  }

  /** The reopened store: Recover says which documents and collections it holds. */
  lemma TearAfterDoc(c: Codec, r: Run, header: Bytes, log: seq<Rec>, k: Key, d: Doc, k2: Key, d2: Doc, idx: seq<Op>,
      nonces: seq<Bytes>)
    requires Inv(c, r) && FileOk(r.s) && r.s.log == log && r.s.header == header && r.durable == map[k := d]
    requires r.phase.Snapped? && !r.phase.st.full && r.phase.st.ops == FirstOps(k2, d2, idx) && log != []
    requires |nonces| == |FirstOps(k2, d2, idx)| && AllFit(EncodeAll(c, FirstOps(k2, d2, idx), nonces))
    requires MetaOf(c, Sealed(log)) == Some({k.coll})
    ensures var rs := EncodeAll(c, FirstOps(k2, d2, idx), nonces);
            var crash := CrashInWriteStep(nonces, FirstSize(c, k2, d2, idx, nonces));
            && Enabled(c, r, crash)
            && OnlyFirst(Next(c, r, crash), header, log + rs[..1], k, d) && FileOk(Next(c, r, crash).s)
  {
    hide Inv, EncodeAll, FirstOps, Layout, BuildRecord, Recover, TornFile, OnlyFirst, Reopen, FirstSize, Kept;
    var rs, n := EncodeAll(c, FirstOps(k2, d2, idx), nonces), FirstSize(c, k2, d2, idx, nonces);
    TearsThere(c, r, k2, d2, idx, nonces);
    TornShows(c, r, nonces, n, k, d);
    ColdReopen(c, r.s.(log := log + rs[..1]), TornFile(c, r, nonces, n), k, d, r.history);
    assert Next(c, r, CrashInWriteStep(nonces, n)) == AfterTear(c, r, nonces, n);
  }

  lemma TearsThere(c: Codec, r: Run, k2: Key, d2: Doc, idx: seq<Op>, nonces: seq<Bytes>)
    requires Inv(c, r) && r.phase.Snapped? && !r.phase.st.full && r.phase.st.ops == FirstOps(k2, d2, idx) && r.s.log != []
    requires |nonces| == |FirstOps(k2, d2, idx)| && AllFit(EncodeAll(c, FirstOps(k2, d2, idx), nonces))
    ensures var rs, n := EncodeAll(c, FirstOps(k2, d2, idx), nonces), FirstSize(c, k2, d2, idx, nonces);
            && |rs| >= 3 && TornAppend(c, r, nonces, n) && n < |Layout(c.crc, rs)|
            && TornLog(c, r, nonces, n) == r.s.log + rs[..1] && TornDocs(c, r, nonces, n) == r.durable
            && AllFit(r.s.log + rs[..1])
  {
    hide Inv, EncodeAll, FirstOps, Layout, BuildRecord;
    var rs := EncodeAll(c, FirstOps(k2, d2, idx), nonces);
    FirstOpsSize(k2, d2, idx);
    FirstRecord(c.crc, rs);
    DurableLog(c, r);
  }

  /** What an open of the torn file shows: the durable document, in the collections of
      the last whole META. */
  lemma TornShows(c: Codec, r: Run, nonces: seq<Bytes>, n: nat, k: Key, d: Doc)
    requires Inv(c, r) && FileOk(r.s) && TornAppend(c, r, nonces, n) && r.durable == map[k := d]
    requires n < |Layout(c.crc, EncodeAll(c, r.phase.st.ops, nonces))|
    requires MetaOf(c, Sealed(r.s.log)) == Some({k.coll})
    ensures var q := Recover(c, TornFile(c, r, nonces, n)); q.Docs? && q.entries.Keys == {k} && q.colls == Some({k.coll})
  {
    hide Inv, EncodeAll, Layout, Recover, Committed, Sealed, TornFile, Unsealed, DecodeDocRecord, Kept, WholeOps, MetaOf,
      AllFit;
    var rs := EncodeAll(c, r.phase.st.ops, nonces);
    KeptOps(c, r, nonces, n);
    TornRecovers(c, r, nonces, n);
    TornCrash(c, r, nonces, n);
    SealedAppend(r.s.log, Kept(c.crc, rs, n));
    CommittedColls(c, Sealed(TornLog(c, r, nonces, n)));
  }

  lemma FirstOpsSize(k: Key, d: Doc, idx: seq<Op>)
    ensures |FirstOps(k, d, idx)| >= 3
  {
  }

  /** Cut behind its first record, a batch of several keeps just that record. */
  lemma FirstRecord(crc: Bytes -> U32, rs: seq<Rec>)
    requires AllFit(rs) && |rs| >= 2
    ensures Kept(crc, rs, |BuildRecord(crc, rs[0])|) == rs[..1]
    ensures |BuildRecord(crc, rs[0])| < |Layout(crc, rs)|
  {
    hide BuildRecord, Layout, WholeCount;
    FirstLength(crc, rs);
    assert rs[..|rs|] == rs;
    LayoutMonotone(crc, rs, 1, 2);
    LayoutMonotone(crc, rs, 1, |rs|);
    OnlyOneCount(crc, rs, |BuildRecord(crc, rs[0])|, 1);
  }

  lemma FirstLength(crc: Bytes -> U32, rs: seq<Rec>)
    requires AllFit(rs) && rs != []
    ensures |Layout(crc, rs[..1])| == |BuildRecord(crc, rs[0])|
  {
    hide BuildRecord;
    assert rs[..1][..0] == [];
    assert Layout(crc, rs[..1][..0]) == [];
  }

  lemma CommittedColls(c: Codec, rs: seq<Rec>)
    requires AllFit(rs)
    ensures Committed(c, rs).Docs? ==> Committed(c, rs).colls == MetaOf(c, rs)
  {
    hide Place, LastMeta, MetaOf, Replay;
    LastMetaIs(c, rs, HEADER_SIZE);
  }

  /** A cold store with one document, whatever else is in its file. */
  ghost predicate OnlyFirst(r: Run, header: Bytes, log: seq<Rec>, k: Key, d: Doc)
  {
    && r.s == Store(r.s.entries, {k.coll}, [], r.s.dirtyGen, r.s.dirty, true, false, false, header, log)
    && r.s.entries.Keys == {k} && !r.s.entries[k].dirty && r.phase.Idle? && r.plain == map[k := d]
  }

  lemma OnlyFirstFacts(r: Run, header: Bytes, log: seq<Rec>, k: Key, d: Doc)
    requires OnlyFirst(r, header, log, k, d)
    ensures r.s.entries.Keys == {k} && r.plain == map[k := d] && r.s.log == log
  {
  }

  lemma ColdReopen(c: Codec, s: Store, data: Bytes, k: Key, d: Doc, history: seq<map<Key, Doc>>)
    requires FileOk(s) && s.log != [] && Recover(c, data).Docs? && Recover(c, data).entries.Keys == {k}
    requires Recover(c, data).colls == Some({k.coll})
    ensures OnlyFirst(Run(Reopen(c, s, data), Idle, map[k := d], map[k := d], history), s.header, s.log, k, d)
    ensures FileOk(Reopen(c, s, data))
  {
    hide Recover;
  }

  lemma FirstMeta(c: Codec, k: Key, d: Doc, idx: seq<Op>, nonces: seq<Bytes>)
    requires Inverse(c) && AllIdx(idx)
    requires |nonces| == |FirstOps(k, d, idx)| && AllFit(EncodeAll(c, FirstOps(k, d, idx), nonces))
    ensures MetaOf(c, Sealed(EncodeAll(c, FirstOps(k, d, idx), nonces))) == Some({k.coll})
  {
    hide EncodeAll, MetaOf, Sealed, OrderOps, Inverse;
    BatchMeta(c, [], [DocOp(k, d)], {k.coll}, idx, nonces);
    SealedWhole(EncodeAll(c, FirstOps(k, d, idx), nonces));
  }

  lemma TailHolds(c: Codec, log: seq<Rec>, k: Key, k2: Key, d2: Doc, idx: seq<Op>, nonces: seq<Bytes>)
    requires Inverse(c) && k in Contents(map[], log) && Readable(c, log) && k != k2
    requires |nonces| == |FirstOps(k2, d2, idx)| && AllFit(EncodeAll(c, FirstOps(k2, d2, idx), nonces))
    ensures |EncodeAll(c, FirstOps(k2, d2, idx), nonces)| >= 3
    ensures var all := log + EncodeAll(c, FirstOps(k2, d2, idx), nonces)[..1];
            k in Contents(map[], all) && k2 in Contents(map[], all) && Readable(c, all)
  {
    var part, ns := [DocOp(k2, d2)], nonces[..1];
    var list := EncodeAll(c, FirstOps(k2, d2, idx), nonces);
    assert list[..1] == EncodeAll(c, part, ns);
    assert LastOp(part, k2) == Stores(d2);
    assert part[..0] == [] && LastOp(part[..0], k) == Untouched;
    assert LastOp(part, k) == Untouched;
    hide EncodeAll, FirstOps, LastOp, Contents, Readable, Inverse;
    BatchOnDisk(c, log, part, ns, k);
    BatchOnDisk(c, log, part, ns, k2);
    EncodedReadable(c, part, ns);
    ReadableAppend(c, log, EncodeAll(c, part, ns));
  }

  /** A flush that stages no document: the store is only marked dirty. */
  lemma FlushNothing(c: Codec, was: seq<Run>, done: seq<Step>, header: Bytes, log: seq<Rec>, k: Key, d: Doc,
      idx: seq<Op>, nonces: seq<Bytes>) returns (more: seq<Run>)
    requires IsRun(c, was, done) && |was| == |done| + 1 && FileOk(was[|done|].s) && |header| == HEADER_SIZE
    requires OnlyFirst(was[|done|], header, log, k, d) && AllIdx(idx)
    requires var ops := OrderOps([], [], {k.coll}, idx); |nonces| == |ops| && AllFit(EncodeAll(c, ops, nonces))
    ensures |more| == 4
    ensures IsRun(c, was + more, done + [SchemaStep] + [SnapshotStep([k], idx)] + [WriteStep(nonces, header)]
                                 + [ReconcileStep])
    ensures var q := more[3];
            && q.s.log == log + EncodeAll(c, OrderOps([], [], {k.coll}, idx), nonces) && q.s.header == header
            && q.s.entries.Keys == {k} && q.plain == q.durable == map[k := d] && q.phase.Idle? && FileOk(q.s)
  {
    hide IsRun, Next, Enabled, FileOk, EncodeAll, OrderOps, Lists, AllIdx, AllFit;
    assert Lists([k], {k}) by { OneDoc(k, d, []); assert map[k := d].Keys == {k}; }
    Marked(c, was[|done|]);
    var a := RunGoesOn(c, was, done, SchemaStep);
    CleanSnapshot(c, a, [k], idx);
    var b := RunGoesOn(c, was + [a], done + [SchemaStep], SnapshotStep([k], idx));
    SameStoreFile(a, b);
    AppendWrite(c, b, nonces, header);
    var steps := done + [SchemaStep] + [SnapshotStep([k], idx)];
    var w := RunGoesOn(c, was + [a] + [b], steps, WriteStep(nonces, header));
    Reconciling(c, w);
    var q := RunGoesOn(c, was + [a] + [b] + [w], steps + [WriteStep(nonces, header)], ReconcileStep);
    more := [a, b, w, q];
    assert was + more == was + [a] + [b] + [w] + [q];
  }

  lemma Marked(c: Codec, r: Run)
    requires FileOk(r.s)
    ensures Enabled(c, r, SchemaStep) && Next(c, r, SchemaStep) == r.(s := Touched(r.s))
    ensures FileOk(Touched(r.s))
  {
  }

  lemma SameStoreFile(a: Run, b: Run)
    requires FileOk(a.s) && b.s.header == a.s.header && b.s.log == a.s.log
    ensures FileOk(b.s)
  {
  }

  // ---------------------------------------------------------------- a cold read in the wrong file

  /** What a cold read returns when its offset and length are those of some record in
      the file, whichever document that record belongs to: the decoder checks the
      record's type and length, and not its id. */
  lemma AlignedRead(c: Codec, s: Store, e: Entry, i: nat)
    requires FileOk(s) && i < |s.log| && e.doc.None?
    requires e.recOff == Place(c.crc, s.log, HEADER_SIZE)[i].off && e.recLen == Place(c.crc, s.log, HEADER_SIZE)[i].len
    ensures ReadEntry(c, s, e)
            == if s.log[i].typ == REC_DOC && Opened(c, s.log[i]).Some? then Found(Opened(c, s.log[i]).value)
               else Unreadable
  {
    hide Layout, Place, ParseRecordAt;
    SliceAtPlace(c.crc, s.header, s.log, [], i);
    var b := BuildRecord(c.crc, s.log[i]);
    ParseBuilt(c.crc, [], s.log[i], []);
    assert [] + b + [] == b;
    assert File(c, s) + [] == File(c, s);
  }

  /** The batch of a full rewrite of two documents. */
  function SecondOps(a: Key, da: Doc, b: Key, db: Doc): seq<Op>
  {
    OrderOps([], [DocOp(a, da), DocOp(b, db)], {b.coll, a.coll}, [])
  }

  /** Two documents whose records have the same length. b is flushed; a is stored and
      the file is rewritten with a before b. Until the flush is reconciled the offset
      of b is the old one, where the record of a now lies: once the payload of b is
      evicted, reading b returns the document of a. */
  lemma WindowReadsAnother(c: Codec, header: Bytes, a: Key, da: Doc, b: Key, db: Doc, first: seq<Bytes>,
      second: seq<Bytes>) returns (rs: seq<Run>)
    requires Inverse(c) && |header| == HEADER_SIZE && a != b
    requires |first| == |FirstOps(b, db, [])| && AllFit(EncodeAll(c, FirstOps(b, db, []), first))
    requires |second| == |SecondOps(a, da, b, db)| && AllFit(EncodeAll(c, SecondOps(a, da, b, db), second))
    requires |BuildRecord(c.crc, EncodeAll(c, SecondOps(a, da, b, db), second)[0])|
             == |BuildRecord(c.crc, EncodeAll(c, FirstOps(b, db, []), first)[0])|
    ensures |rs| == 11
    ensures IsRun(c, rs, [PutStep(b, db), SnapshotStep([b], []), WriteStep(first, header), ReconcileStep,
                          PutStep(a, da), CompactStep, SnapshotStep([a, b], []), WriteStep(second, header),
                          EvictStep(b), LoadStep(b)])
    ensures Inv(c, rs[9]) && FileOk(rs[9].s) && b in rs[9].s.entries && b in rs[10].s.entries
    ensures ReadEntry(c, rs[9].s, rs[9].s.entries[b]) == Found(da)
    ensures rs[10].s.entries[b].doc == Some(da) && rs[10].plain == map[b := db, a := da]
  {
    hide Inv, Inverse, EncodeAll, FileOk, IsRun, Next, Enabled, Flushed, Safe, ReadEntry, BuildRecord, OrderOps, FirstOps,
      SecondOps, BothInMemory, Lists, AllFit, Warm;
    rs := PutAndFlushed(c, header, b, db, first);
    var steps := PutSteps(header, b, db, first);
    var log := EncodeAll(c, FirstOps(b, db, []), first);
    PutAnother(c, rs[4], header, a, da, b, db, log);
    var r5 := StepOn(c, rs, steps, PutStep(a, da));
    rs, steps := rs + [r5], steps + [PutStep(a, da)];
    CompactBoth(c, r5, a, da, b, db, log);
    var r6 := StepOn(c, rs, steps, CompactStep);
    rs, steps := rs + [r6], steps + [CompactStep];
    StageBoth(c, r6, a, da, b, db, log);
    var r7 := StepOn(c, rs, steps, SnapshotStep([a, b], []));
    rs, steps := rs + [r7], steps + [SnapshotStep([a, b], [])];
    FullWrite(c, r7, second, header);
    var r8 := StepOn(c, rs, steps, WriteStep(second, header));
    CleanSlot(r7, r8, a, da, b, db, log);
    rs, steps := rs + [r8], steps + [WriteStep(second, header)];
    EvictClean(c, r8, b);
    var r9 := StepOn(c, rs, steps, EvictStep(b));
    rs, steps := rs + [r9], steps + [EvictStep(b)];
    OldOffset(c, r9, a, da, b, db, first, second);
    LoadCold(c, r9, b, da);
    var r10 := RunGoesOn(c, rs, steps, LoadStep(b));
    rs, steps := rs + [r10], steps + [LoadStep(b)];
    assert steps == [PutStep(b, db), SnapshotStep([b], []), WriteStep(first, header), ReconcileStep,
                     PutStep(a, da), CompactStep, SnapshotStep([a, b], []), WriteStep(second, header),
                     EvictStep(b), LoadStep(b)];
  }

  function PutSteps(header: Bytes, k: Key, d: Doc, nonces: seq<Bytes>): seq<Step>
  {
    [PutStep(k, d), SnapshotStep([k], []), WriteStep(nonces, header), ReconcileStep]
  }

  /** One document, put and flushed. */
  lemma PutAndFlushed(c: Codec, header: Bytes, k: Key, d: Doc, nonces: seq<Bytes>) returns (rs: seq<Run>)
    requires Inverse(c) && |header| == HEADER_SIZE
    requires |nonces| == |FirstOps(k, d, [])| && AllFit(EncodeAll(c, FirstOps(k, d, []), nonces))
    ensures |rs| == 5 && IsRun(c, rs, PutSteps(header, k, d, nonces))
    ensures Inv(c, rs[4]) && FileOk(rs[4].s) && Warm(rs[4].s, map[k := d])
    ensures Flushed(rs[4], header, EncodeAll(c, FirstOps(k, d, []), nonces), {k.coll}, map[k := d])
  {
    hide Inv, Inverse, EncodeAll, FileOk, IsRun, Safe, Next, Enabled, FirstOps, OrderOps, Flushed, Lists, NewStore, Warm,
      DocOps;
    OneDoc(k, d, []);
    rs := StartsNew(c, header);
    EntryKeys(c, rs[0]);
    PutNew(c, rs[0], header, {}, map[], k, d);
    assert {} + {k.coll} == {k.coll} && map[][k := d] == map[k := d];
    var r1 := StepOn(c, rs, [], PutStep(k, d));
    rs := FlushNew(c, rs + [r1], [] + [PutStep(k, d)], header, {k.coll}, map[k := d], [k], [], nonces);
    assert [] + [PutStep(k, d)] + [SnapshotStep([k], [])] + [WriteStep(nonces, header)] + [ReconcileStep]
        == PutSteps(header, k, d, nonces);
  }

  /** Both documents in memory, that of b clean, and the file still the first one. */
  ghost predicate BothInMemory(r: Run, a: Key, da: Doc, b: Key, db: Doc, log: seq<Rec>)
  {
    && r.s.entries.Keys == {a, b} && r.s.entries[a].doc == Some(da)
    && r.s.entries[b].doc == Some(db) && !r.s.entries[b].dirty
    && r.s.log == log && r.plain == map[b := db, a := da]
  }

  lemma PutAnother(c: Codec, r: Run, header: Bytes, a: Key, da: Doc, b: Key, db: Doc, log: seq<Rec>)
    requires FileOk(r.s) && Flushed(r, header, log, {b.coll}, map[b := db]) && Warm(r.s, map[b := db]) && a != b
    ensures Enabled(c, r, PutStep(a, da)) && Safe(c, r, PutStep(a, da))
    ensures var q := Next(c, r, PutStep(a, da));
            && BothInMemory(q, a, da, b, db, log)
            && q.s.colls == {b.coll, a.coll} && q.s.dirty && q.phase.Idle?
  {
    hide AllFit;
  }

  lemma CompactBoth(c: Codec, r: Run, a: Key, da: Doc, b: Key, db: Doc, log: seq<Rec>)
    requires FileOk(r.s) && r.s.dirty && BothInMemory(r, a, da, b, db, log)
    ensures Enabled(c, r, CompactStep) && Safe(c, r, CompactStep)
    ensures Next(c, r, CompactStep) == r.(s := r.s.(compactForce := true))
    ensures BothInMemory(r.(s := r.s.(compactForce := true)), a, da, b, db, log)
  {
  }

  lemma StageBoth(c: Codec, r: Run, a: Key, da: Doc, b: Key, db: Doc, log: seq<Rec>)
    requires FileOk(r.s) && a != b && r.s.compactForce && r.s.dirty && r.phase.Idle? && r.s.colls == {b.coll, a.coll}
    requires BothInMemory(r, a, da, b, db, log)
    ensures Enabled(c, r, SnapshotStep([a, b], [])) && Safe(c, r, SnapshotStep([a, b], []))
    ensures var q := Next(c, r, SnapshotStep([a, b], []));
            && q.phase.Snapped? && q.phase.st.full && q.phase.st.ops == SecondOps(a, da, b, db)
            && BothInMemory(q, a, da, b, db, log)
  {
    hide AllFit, OrderOps;
    FullSnapshot(c, r, [a, b], []);
    assert DocOps([a, b], r.plain) == [DocOp(a, da), DocOp(b, db)];
  }

  lemma CleanSlot(r: Run, q: Run, a: Key, da: Doc, b: Key, db: Doc, log: seq<Rec>)
    requires BothInMemory(r, a, da, b, db, log) && q.s.entries == r.s.entries && q.plain == r.plain
    ensures b in q.s.entries && b in q.plain && !q.s.entries[b].dirty && q.plain == map[b := db, a := da]
    ensures r.s.log == log
  {
  }

  lemma EvictClean(c: Codec, r: Run, b: Key)
    requires FileOk(r.s) && b in r.s.entries && !r.s.entries[b].dirty
    ensures Enabled(c, r, EvictStep(b)) && Safe(c, r, EvictStep(b))
    ensures Next(c, r, EvictStep(b)) == WithEntry(r, b, r.s.entries[b].(doc := None))
  {
  }

  /** The evicted slot points at the start of the log, where another record of the
      same length lies by now. */
  lemma OldOffset(c: Codec, r: Run, a: Key, da: Doc, b: Key, db: Doc, first: seq<Bytes>, second: seq<Bytes>)
    requires Inv(c, r) && FileOk(r.s)
    requires b in r.s.entries && b in r.plain && r.s.entries[b].doc.None? && !r.s.entries[b].dirty
    requires r.phase.Written? && r.phase.st.full
    requires |first| == |FirstOps(b, db, [])| && AllFit(EncodeAll(c, FirstOps(b, db, []), first))
    requires |second| == |SecondOps(a, da, b, db)| && AllFit(EncodeAll(c, SecondOps(a, da, b, db), second))
    requires r.phase.before == EncodeAll(c, FirstOps(b, db, []), first)
    requires r.s.log == EncodeAll(c, SecondOps(a, da, b, db), second)
    requires |BuildRecord(c.crc, r.s.log[0])| == |BuildRecord(c.crc, r.phase.before[0])|
    ensures ReadEntry(c, r.s, r.s.entries[b]) == Found(da)
  {
    CleanDecodes(c, r, b);
    OnlyDoc(c, b, db, first);
    SecondFirst(c, a, da, b, db, second);
    CodecInverse(c, r);
    hide Inv, BuildRecord, Place, AllFit, EncodeAll, FirstOps, SecondOps, DecodesAt, ReadEntry, Inverse;
    OnlyPlace(c, r.phase.before, r.s.entries[b].recOff, r.s.entries[b].recLen, r.plain[b]);
    FirstPlace(c.crc, r.s.log);
    AlignedRead(c, r.s, r.s.entries[b], 0);
    OpensAgain(c, da, second[0]);
  }

  lemma OpensAgain(c: Codec, d: Doc, nonce: Bytes)
    requires Inverse(c)
    ensures c.openDoc(c.sealDoc(nonce, d).0, nonce, c.sealDoc(nonce, d).1) == Some(d)
  {
  }

  lemma OnlyDoc(c: Codec, b: Key, db: Doc, first: seq<Bytes>)
    requires |first| == |FirstOps(b, db, [])|
    ensures var log := EncodeAll(c, FirstOps(b, db, []), first);
            log != [] && forall i | 0 <= i < |log| :: log[i].typ == REC_DOC ==> i == 0
  {
    assert FirstOps(b, db, []) == [DocOp(b, db), MetaOp({b.coll}), CommitOp];
  }

  lemma SecondFirst(c: Codec, a: Key, da: Doc, b: Key, db: Doc, second: seq<Bytes>)
    requires |second| == |SecondOps(a, da, b, db)|
    ensures second != [] && EncodeAll(c, SecondOps(a, da, b, db), second) != []
    ensures EncodeAll(c, SecondOps(a, da, b, db), second)[0] == EncodeOp(c, DocOp(a, da), second[0])
  {
    assert SecondOps(a, da, b, db)[0] == DocOp(a, da);
  }

  lemma OnlyPlace(c: Codec, log: seq<Rec>, off: int, len: int, d: Doc)
    requires AllFit(log) && log != [] && forall i | 0 <= i < |log| :: log[i].typ == REC_DOC ==> i == 0
    requires DecodesAt(c, log, off, len, d)
    ensures off == HEADER_SIZE && len == |BuildRecord(c.crc, log[0])|
  {
    hide BuildRecord, Place;
    var i :| 0 <= i < |log| && RecordIs(c, log, i, off, len, d);
    FirstPlace(c.crc, log);
  }

  lemma CleanDecodes(c: Codec, r: Run, k: Key)
    requires Inv(c, r) && k in r.s.entries && k in r.plain && !r.s.entries[k].dirty
    ensures AllFit(OffsetsLog(r))
    ensures DecodesAt(c, OffsetsLog(r), r.s.entries[k].recOff, r.s.entries[k].recLen, r.plain[k])
  {
    hide DecodesAt, LogOk, PhaseOk, FlagsOk, Inverse, DelsOk, QuietOk;
  }

  lemma FirstPlace(crc: Bytes -> U32, rs: seq<Rec>)
    requires AllFit(rs) && rs != []
    ensures Place(crc, rs, HEADER_SIZE)[0] == Placed(rs[0], HEADER_SIZE, |BuildRecord(crc, rs[0])|)
  {
    hide BuildRecord;
    PlacePrefix(crc, rs, 1, HEADER_SIZE);
    assert rs[..1][..0] == [];
    assert Place(crc, rs[..1], HEADER_SIZE)[0] == Place(crc, rs, HEADER_SIZE)[0];
    EmptyLayout(crc);
  }

  lemma LoadCold(c: Codec, r: Run, b: Key, da: Doc)
    requires FileOk(r.s) && b in r.s.entries && ReadEntry(c, r.s, r.s.entries[b]) == Found(da)
    ensures Enabled(c, r, LoadStep(b))
    ensures Next(c, r, LoadStep(b)) == WithEntry(r, b, r.s.entries[b].(doc := Some(da)))
  {
    hide ReadEntry;
  }

  // ---------------------------------------------------------------- two keys share a text

  /** Names that hold a NUL can make the scan confuse two documents. */
  lemma SharedText()
    ensures var k, other := Key([97, 0], [98]), Key([97], [0, 98]);
            k != other && Join(k) == Join(other)
  {
    assert Join(Key([97, 0], [98])) == [97, 0, 0, 98] == Join(Key([97], [0, 98]));
  }

  function DropOps(k: Key, colls: set<Bytes>): seq<Op> { [DelOp(k), MetaOp(colls), CommitOp] }

  /** Two documents whose collection, NUL and id join to the same text are stored and
      flushed; one is deleted, and that is flushed too. The store and the log hold the
      other one. An open does not install it. */
  lemma JoinedKeysCollide(c: Codec, header: Bytes, k: Key, d: Doc, other: Key, od: Doc, first: seq<Bytes>,
      second: seq<Bytes>) returns (rs: seq<Run>)
    requires Inverse(c) && |header| == HEADER_SIZE && k != other && Join(k) == Join(other)
    requires |first| == |SecondOps(other, od, k, d)| && AllFit(EncodeAll(c, SecondOps(other, od, k, d), first))
    requires |second| == 3 && AllFit(EncodeAll(c, DropOps(other, {k.coll, other.coll}), second))
    ensures |rs| == 10
    ensures IsRun(c, rs, [PutStep(k, d), PutStep(other, od), SnapshotStep([other, k], []), WriteStep(first, header),
                          ReconcileStep, RemoveStep(other), SnapshotStep([k], []), WriteStep(second, header),
                          ReconcileStep])
    ensures FileOk(rs[9].s) && rs[9].plain == map[k := d] && rs[9].phase.Idle?
    ensures var file := File(c, rs[9].s);
            var recs := Walk(c.crc, file, HEADER_SIZE).recs;
            var ps := recs[..CommitCount(recs)];
            && Recover(c, file).Docs? && Recover(c, file).entries.Keys == {k}
            && AllKeyed(ps) && k !in Installed(c, ps).entries
  {
    hide Inv, Inverse, EncodeAll, FileOk, IsRun, Next, Enabled, Safe, Flushed, OrderOps, SecondOps, DropOps, AllFit,
      Lists, Warm, Recover, File, Walk, Join, NewStore, AllKeyed, Installed, Dropping;
    rs := BothFlushed(c, header, k, d, other, od, first);
    var steps := BothSteps(header, k, d, other, od, first);
    var log := EncodeAll(c, SecondOps(other, od, k, d), first);
    DropOne(c, rs[5], header, log, k, d, other, od);
    var r6 := StepOn(c, rs, steps, RemoveStep(other));
    rs, steps := rs + [r6], steps + [RemoveStep(other)];
    StageDrop(c, r6, header, log, k, d, other);
    var r7 := StepOn(c, rs, steps, SnapshotStep([k], []));
    rs, steps := rs + [r7], steps + [SnapshotStep([k], [])];
    AppendWrite(c, r7, second, header);
    var r8 := StepOn(c, rs, steps, WriteStep(second, header));
    rs, steps := rs + [r8], steps + [WriteStep(second, header)];
    EntryKeys(c, r8);
    ReconcileQuietly(c, r8);
    var r9 := StepOn(c, rs, steps, ReconcileStep);
    rs, steps := rs + [r9], steps + [ReconcileStep];
    var colls := {k.coll, other.coll};
    EndOfDrop(c, r9, header, log + EncodeAll(c, DropOps(other, colls), second), colls, k, d);
    Collides(c, r9, log, k, other, colls, second);
    assert steps == [PutStep(k, d), PutStep(other, od), SnapshotStep([other, k], []), WriteStep(first, header),
                     ReconcileStep, RemoveStep(other), SnapshotStep([k], []), WriteStep(second, header),
                     ReconcileStep];
  }

  function BothSteps(header: Bytes, k: Key, d: Doc, other: Key, od: Doc, first: seq<Bytes>): seq<Step>
  {
    [PutStep(k, d), PutStep(other, od), SnapshotStep([other, k], []), WriteStep(first, header), ReconcileStep]
  }

  lemma BothFlushed(c: Codec, header: Bytes, k: Key, d: Doc, other: Key, od: Doc, first: seq<Bytes>)
    returns (rs: seq<Run>)
    requires Inverse(c) && |header| == HEADER_SIZE && k != other
    requires |first| == |SecondOps(other, od, k, d)| && AllFit(EncodeAll(c, SecondOps(other, od, k, d), first))
    ensures |rs| == 6 && IsRun(c, rs, BothSteps(header, k, d, other, od, first))
    ensures Inv(c, rs[5]) && FileOk(rs[5].s) && Warm(rs[5].s, map[k := d, other := od])
    ensures Flushed(rs[5], header, EncodeAll(c, SecondOps(other, od, k, d), first), {k.coll, other.coll},
                    map[k := d, other := od])
  {
    hide Inv, Inverse, EncodeAll, FileOk, IsRun, Next, Enabled, Safe, Flushed, OrderOps, SecondOps, AllFit, Lists, Warm,
      NewStore, DocOps;
    rs := BothPut(c, header, k, d, other, od);
    var steps := [PutStep(k, d), PutStep(other, od)];
    BothOps(k, d, other, od);
    rs := FlushNew(c, rs, steps, header, {k.coll, other.coll}, map[k := d, other := od], [other, k], [], first);
    assert steps + [SnapshotStep([other, k], [])] + [WriteStep(first, header)] + [ReconcileStep]
        == BothSteps(header, k, d, other, od, first);
  }

  lemma BothPut(c: Codec, header: Bytes, k: Key, d: Doc, other: Key, od: Doc) returns (rs: seq<Run>)
    requires Inverse(c) && |header| == HEADER_SIZE && k != other
    ensures |rs| == 3 && IsRun(c, rs, [PutStep(k, d), PutStep(other, od)]) && Inv(c, rs[2])
    ensures NewStore(rs[2], header, {k.coll, other.coll}, map[k := d, other := od])
  {
    hide Inv, Inverse, FileOk, IsRun, Next, Enabled, Safe, NewStore;
    rs := StartsNew(c, header);
    EntryKeys(c, rs[0]);
    PutNew(c, rs[0], header, {}, map[], k, d);
    var r1 := StepOn(c, rs, [], PutStep(k, d));
    rs := rs + [r1];
    PutNew(c, r1, header, {} + {k.coll}, map[][k := d], other, od);
    var r2 := StepOn(c, rs, [] + [PutStep(k, d)], PutStep(other, od));
    rs := rs + [r2];
    assert {} + {k.coll} + {other.coll} == {k.coll, other.coll};
    assert map[][k := d][other := od] == map[k := d, other := od];
    assert [] + [PutStep(k, d)] + [PutStep(other, od)] == [PutStep(k, d), PutStep(other, od)];
  }

  lemma BothOps(k: Key, d: Doc, other: Key, od: Doc)
    requires k != other
    ensures var docs: map<Key, Doc> := map[k := d, other := od];
            && Lists([other, k], docs.Keys)
            && OrderOps([], DocOps([other, k], docs), {k.coll, other.coll}, []) == SecondOps(other, od, k, d)
  {
    var docs: map<Key, Doc> := map[k := d, other := od];
    assert docs.Keys == {k, other};
    assert DocOps([other, k], docs) == [DocOp(other, od), DocOp(k, d)];
  }

  /** One document left, clean, and the deletion of the other queued. */
  ghost predicate Dropping(r: Run, header: Bytes, log: seq<Rec>, colls: set<Bytes>, k: Key, d: Doc, other: Key)
  {
    && r.s == Store(r.s.entries, colls, r.s.pendingDels, r.s.dirtyGen, true, true, false, false, header, log)
    && |r.s.pendingDels| == 1 && r.s.pendingDels[0].key == other
    && r.s.entries.Keys == {k} && !r.s.entries[k].dirty && r.phase.Idle? && r.plain == map[k := d]
  }

  lemma DropOne(c: Codec, r: Run, header: Bytes, log: seq<Rec>, k: Key, d: Doc, other: Key, od: Doc)
    requires FileOk(r.s) && Flushed(r, header, log, {k.coll, other.coll}, map[k := d, other := od])
    requires Warm(r.s, map[k := d, other := od]) && k != other
    ensures Enabled(c, r, RemoveStep(other)) && Safe(c, r, RemoveStep(other))
    ensures Dropping(Next(c, r, RemoveStep(other)), header, log, {k.coll, other.coll}, k, d, other)
  {
    hide FileOk, Enabled, Safe, Next;
    RemoveWarm(c, r, other);
    var docs: map<Key, Doc> := map[k := d, other := od];
    OneLeft(k, d, other, od);
    assert r.s.entries.Keys == docs.Keys;
    assert Remove(r.s, other).entries.Keys == docs.Keys - {other};
  }

  lemma OneLeft(k: Key, d: Doc, other: Key, od: Doc)
    requires k != other
    ensures map[k := d, other := od].Keys - {other} == {k}
    ensures map[k := d, other := od] - {other} == map[k := d]
  {
  }

  lemma StageDrop(c: Codec, r: Run, header: Bytes, log: seq<Rec>, k: Key, d: Doc, other: Key)
    requires FileOk(r.s) && Dropping(r, header, log, {k.coll, other.coll}, k, d, other)
    ensures Enabled(c, r, SnapshotStep([k], [])) && Safe(c, r, SnapshotStep([k], []))
    ensures var q := Next(c, r, SnapshotStep([k], []));
            && q.s == r.s.(flushInProgress := true) && q.plain == r.plain == map[k := d]
            && q.s.log == log && q.s.header == header && q.s.colls == {k.coll, other.coll} && !q.s.compactForce
            && q.phase.Snapped? && !q.phase.st.full && q.phase.st.ops == DropOps(other, {k.coll, other.coll})
            && |q.phase.st.ops| == 3 && q.phase.st.gen == q.s.dirtyGen && q.phase.snap == q.plain
  {
    hide AllFit;
    assert Lists([k], r.s.entries.Keys);
    CleanSnapshot(c, r, [k], []);
    assert DelOps(r.s.pendingDels) == [DelOp(other)];
    assert OrderOps(r.s.pendingDels, [], r.s.colls, []) == DropOps(other, {k.coll, other.coll});
  }

  lemma EndOfDrop(c: Codec, r: Run, header: Bytes, log: seq<Rec>, colls: set<Bytes>, k: Key, d: Doc)
    requires Inv(c, r) && Flushed(r, header, log, colls, map[k := d])
    ensures FileOk(r.s) && r.plain == r.durable == map[k := d] && r.phase.Idle? && r.s.header == header && r.s.log == log
  {
    hide Inv;
    EntryKeys(c, r);
  }

  lemma Collides(c: Codec, r: Run, log: seq<Rec>, k: Key, other: Key, colls: set<Bytes>, second: seq<Bytes>)
    requires Inv(c, r) && FileOk(r.s) && r.durable.Keys == {k} && Join(k) == Join(other)
    requires |second| == 3 && AllFit(EncodeAll(c, DropOps(other, colls), second))
    requires r.s.log == log + EncodeAll(c, DropOps(other, colls), second)
    ensures var file := File(c, r.s);
            var recs := Walk(c.crc, file, HEADER_SIZE).recs;
            var ps := recs[..CommitCount(recs)];
            && Recover(c, file).Docs? && Recover(c, file).entries.Keys == {k}
            && AllKeyed(ps) && k !in Installed(c, ps).entries
  {
    var del := EncodeAll(c, DropOps(other, colls), second);
    CrashRecoversHistory(c, r);
    DurableLog(c, r);
    LogReadable(c, r.s.log, r.durable);
    DropRecords(c, other, colls, second);
    hide Inv, EncodeAll, DropOps, Recover, DecodeDocRecord, LogOk, Join, Walk, Layout, Place, Installed, AllKeyed,
      Readable;
    var file, ps := File(c, r.s), Place(c.crc, r.s.log, HEADER_SIZE);
    SealedWhole(r.s.log);
    SealedWalk(c.crc, r.s.header, r.s.log);
    KeyedPlaces(c, r.s.log);
    NotInstalled(c, ps, k, other);
  }

  lemma LogReadable(c: Codec, log: seq<Rec>, docs: map<Key, Doc>)
    requires LogOk(c, log, docs)
    ensures Readable(c, log)
  {
  }

  lemma DropRecords(c: Codec, other: Key, colls: set<Bytes>, second: seq<Bytes>)
    requires |second| == 3 && AllFit(EncodeAll(c, DropOps(other, colls), second))
    ensures var del := EncodeAll(c, DropOps(other, colls), second);
            && |del| == 3 && EndsInCommit(del) && del[1].typ == REC_META && del[2].typ == REC_COMMIT
            && del[0].typ == REC_DEL && DecodeIDBlob(del[0].idBlob) == Some(other)
  {
    var del := EncodeAll(c, DropOps(other, colls), second);
    assert del[0].Fits();
    FittingBlob(other);
  }

  lemma KeyedPlaces(c: Codec, log: seq<Rec>)
    requires AllFit(log) && Readable(c, log)
    ensures AllKeyed(Place(c.crc, log, HEADER_SIZE))
  {
    hide Place, DecodeIDBlob;
    var ps := Place(c.crc, log, HEADER_SIZE);
    forall i | 0 <= i < |ps| && ps[i].rec.typ in {REC_DOC, REC_DEL}
      ensures Keyed(ps[i])
    {
      assert RecDecodable(c, log[i]);
    }
  }

  /** When the last record under a text is a deletion, no key of that text is installed. */
  lemma NotInstalled(c: Codec, ps: seq<Placed>, k: Key, other: Key)
    requires AllKeyed(ps) && Join(k) == Join(other) && |ps| >= 3
    requires ps[|ps| - 1].rec.typ == REC_COMMIT && ps[|ps| - 2].rec.typ == REC_META
    requires ps[|ps| - 3].rec.typ == REC_DEL && DecodeIDBlob(ps[|ps| - 3].rec.idBlob) == Some(other)
    ensures k !in Installed(c, ps).entries
  {
    hide DecodeIDBlob, Join, Install, Living, DocsOf, LastMeta;
    var n := |ps|;
    assert !AliveAfter(ps[..n - 2], Join(k)) by { assert ps[..n - 2][n - 3] == ps[n - 3]; }
    assert ps[..n - 1][..n - 2] == ps[..n - 2];
    assert !AliveAfter(ps[..n - 1], Join(k));
    assert !AliveAfter(ps, Join(k));
    hide AliveAfter, LastDoc;
    InstallLiving(ps, ps, k);
  }
}
