/** The indexes in the log. Along every run, safe or not, the texts in force tell of the
    documents the store held when the last durable batch was staged; so an open
    attaches sound indexes exactly when the documents it shows give the same rows. */
module IndexLog {
  import opened ByteCodec
  import opened Values
  import opened RecordLog
  import opened TornTail
  import opened Scan
  import opened FlushProtocol
  import opened FlushRuns
  import opened FlushSafety
  import opened FlushCrash
  import opened FlushFailures
  import opened IndexRows
  import opened KeyMaps
  import opened Collections
  import opened IndexAttach

  /** The documents of one collection. */
  function DocsIn(m: map<Key, Doc>, coll: Bytes): map<Bytes, Doc>
  {
    map k | k in m && k.coll == coll :: k.id := m[k]
  }

  predicate NoMetaAfter(rs: seq<Rec>, i: nat) { forall j | i < j < |rs| :: rs[j].typ != REC_META }

  ghost predicate RecLoads(x: Reader, c: Codec, r: Rec)
  {
    match TextOf(c, r)
    case Some(t) => Loads(x, t.text)
    case None => true
  }

  ghost predicate RecTells(x: Reader, c: Codec, r: Rec, docs: map<Key, Doc>)
  {
    match TextOf(c, r)
    case Some(t) => Tells(x, t.text, DocsIn(docs, t.coll))
    case None => true
  }

  ghost predicate LogLoads(x: Reader, c: Codec, rs: seq<Rec>) { forall i | 0 <= i < |rs| :: RecLoads(x, c, rs[i]) }

  /** The index records behind the last META tell of these documents. */
  ghost predicate LogTells(x: Reader, c: Codec, rs: seq<Rec>, docs: map<Key, Doc>)
  {
    forall i | 0 <= i < |rs| && NoMetaAfter(rs, i) :: RecTells(x, c, rs[i], docs)
  }

  /** The index was serialized with the last META. */
  predicate InForce(x: Reader, c: Codec, rs: seq<Rec>, coll: Bytes, def: Def)
  {
    exists i | 0 <= i < |rs| && NoMetaAfter(rs, i) :: RecIsFor(x, c, rs[i], coll, def)
  }

  predicate RecIsFor(x: Reader, c: Codec, r: Rec, coll: Bytes, def: Def)
  {
    match TextOf(c, r)
    case Some(t) => IsFor(x, t, coll, def)
    case None => false
  }

  // ---------------------------------------------------------------- what is staged

  /** Index operations that say what these documents are, as IndexAttach.StageIndexes
      makes them of every sound collection. */
  ghost predicate OpsTell(x: Reader, ops: seq<Op>, docs: map<Key, Doc>)
  {
    forall i | 0 <= i < |ops| && ops[i].IdxOp? :: Tells(x, ops[i].payload, DocsIn(docs, ops[i].coll))
  }

  ghost predicate StepTells(x: Reader, r: Run, step: Step)
  {
    step.SnapshotStep? ==> OpsTell(x, step.idx, r.plain)
  }

  lemma {:induction false} StagedAreDocs(c: Codec, s: Store, ks: seq<Key>, full: bool)
    requires FileOk(s) && forall i | 0 <= i < |ks| :: ks[i] in s.entries
    ensures var docs := StageDocs(c, s, ks, full);
            docs.Some? ==> forall i | 0 <= i < |docs.value| :: docs.value[i].DocOp?
  {
    hide ReadEntry, AllFit;
    if ks != [] {
      var k := ks[|ks| - 1];
      StagedAreDocs(c, s, ks[..|ks| - 1], full);
      var front := StageDocs(c, s, ks[..|ks| - 1], full);
      assert StageDocs(c, s, ks, full).Some? ==>
        || StageDocs(c, s, ks, full).value == front.value
        || exists d :: StageDocs(c, s, ks, full).value == front.value + [DocOp(k, d)];
    }
  }

  lemma OnlyIdxBehind(dels: seq<DelItem>, docs: seq<Op>, colls: set<Bytes>, idx: seq<Op>, i: nat)
    requires (forall j | 0 <= j < |docs| :: docs[j].DocOp?) && i <= |dels| + |docs|
    ensures !OrderOps(dels, docs, colls, idx)[i].IdxOp?
  {
    var ops := OrderOps(dels, docs, colls, idx);
    if |dels| <= i < |dels| + |docs| { assert ops[i] == docs[i - |dels|]; }
  }

  lemma OrderedTells(x: Reader, dels: seq<DelItem>, docs: seq<Op>, colls: set<Bytes>, idx: seq<Op>, snap: map<Key, Doc>)
    requires (forall i | 0 <= i < |docs| :: docs[i].DocOp?) && OpsTell(x, idx, snap)
    ensures OpsTell(x, OrderOps(dels, docs, colls, idx), snap)
  {
    hide Tells;
    var ops, m := OrderOps(dels, docs, colls, idx), |dels| + |docs| + 1;
    forall i | 0 <= i < |ops| && ops[i].IdxOp?
      ensures Tells(x, ops[i].payload, DocsIn(snap, ops[i].coll))
    {
      if i < m {
        OnlyIdxBehind(dels, docs, colls, idx, i);
        assert false;
      }
      assert ops[i] == idx[i - m];
    }
  }

  lemma StagedTells(x: Reader, c: Codec, r: Run, ks: seq<Key>, idx: seq<Op>, s: Store, st: FlushState)
    requires FileOk(r.s) && Lists(ks, r.s.entries.Keys) && AllIdx(idx) && OpsTell(x, idx, r.plain)
    requires PrepareFlush(c, r.s, ks, idx) == Ready(s, st)
    ensures IsOrdered(st.ops, map[]) && OpsTell(x, st.ops, r.plain) && s.log == r.s.log
  {
    PreparedOps(c, r, ks, idx, s, st);
    StagedAreDocs(c, r.s, ks, st.full);
    OrderedTells(x, st.dels, StageDocs(c, r.s, ks, st.full).value, r.s.colls, idx, r.plain);
    hide StageDocs, OrderOps, OpsTell, AllFit, Loaded;
  }

  // ---------------------------------------------------------------- what is written

  lemma TextOfEncoded(c: Codec, op: Op, nonce: Bytes)
    requires Inverse(c) && EncodeOp(c, op, nonce).Fits()
    ensures TextOf(c, EncodeOp(c, op, nonce)) == if op.IdxOp? then Some(IdxText(op.coll, op.payload)) else None
  {
    hide DecodeIDBlob, EncodeIDBlob;
    if op.IdxOp? { FittingBlob(Key(op.coll, [])); }
  }

  /** A batch supersedes every index record before it. */
  lemma BatchTells(x: Reader, c: Codec, base: seq<Rec>, ops: seq<Op>, nonces: seq<Bytes>, snap: map<Key, Doc>)
    requires Inverse(c) && |nonces| == |ops| && AllFit(EncodeAll(c, ops, nonces))
    requires IsOrdered(ops, map[]) && OpsTell(x, ops, snap) && LogLoads(x, c, base)
    ensures LogLoads(x, c, base + EncodeAll(c, ops, nonces))
    ensures LogTells(x, c, base + EncodeAll(c, ops, nonces), snap)
    ensures IsBatch(EncodeAll(c, ops, nonces))
  {
    hide IsOrdered, Inverse, Tells, Loads, TextOf, EncodeOp;
    var rs := EncodeAll(c, ops, nonces);
    OrderedBatch(c, ops, nonces, map[]);
    var m :| 0 <= m < |rs| && rs[m].typ == REC_META;
    forall i | 0 <= i < |rs|
      ensures RecTells(x, c, rs[i], snap) && RecLoads(x, c, rs[i])
    {
      assert rs[i].Fits();
      TextOfEncoded(c, ops[i], nonces[i]);
      if ops[i].IdxOp? { TellsLoads(x, ops[i].payload, DocsIn(snap, ops[i].coll)); }
    }
    assert (base + rs)[|base| + m] == rs[m];
  }

  lemma TellsLoads(x: Reader, text: Bytes, docs: map<Bytes, Doc>)
    requires Tells(x, text, docs)
    ensures Loads(x, text)
  {
  }

  // ---------------------------------------------------------------- along runs

  ghost predicate Telling(x: Reader, c: Codec, r: Run)
  {
    && LogLoads(x, c, r.s.log) && LogTells(x, c, Sealed(r.s.log), r.durable)
    && (r.phase.Snapped? ==> IsOrdered(r.phase.st.ops, map[]) && OpsTell(x, r.phase.st.ops, r.phase.snap))
  }

  lemma WriteTells(x: Reader, c: Codec, r: Run, nonces: seq<Bytes>, header: Bytes)
    requires Inverse(c) && FileOk(r.s) && Telling(x, c, r) && Enabled(c, r, WriteStep(nonces, header))
    ensures Telling(x, c, AfterWrite(c, r, nonces, header))
  {
    hide IsOrdered, OpsTell, LogLoads, LogTells, Inverse, EncodeAll, Place, Layout, Sealed, IsBatch;
    var ops := r.phase.st.ops;
    var rs := EncodeAll(c, ops, nonces);
    if AllFit(rs) {
      NothingLoads(x, c);
      BatchTells(x, c, if r.phase.st.full then [] else r.s.log, ops, nonces, r.phase.snap);
      SealedBatch([], rs);
      SealedBatch(r.s.log, rs);
      assert [] + rs == rs;
    }
  }

  lemma NothingLoads(x: Reader, c: Codec)
    ensures LogLoads(x, c, [])
  {
  }

  lemma SealedBatch(log: seq<Rec>, rs: seq<Rec>)
    ensures IsBatch(rs) ==> Sealed(log + rs) == log + rs
  {
    if IsBatch(rs) { SealedAppend(log, rs); }
  }

  lemma TearTells(x: Reader, c: Codec, r: Run, nonces: seq<Bytes>, n: nat)
    requires Inverse(c) && FileOk(r.s) && Telling(x, c, r) && TornAppend(c, r, nonces, n)
    ensures Telling(x, c, AfterTear(c, r, nonces, n))
  {
    hide IsOrdered, OpsTell, Inverse, EncodeAll, Layout, Sealed, IsBatch, Kept, Reopen, LogTells, RecLoads;
    var ops := r.phase.st.ops;
    var rs := EncodeAll(c, ops, nonces);
    var kept := Kept(c.crc, rs, n);
    BatchTells(x, c, r.s.log, ops, nonces, r.phase.snap);
    KeptOfBatch(c.crc, rs, n);
    SealedAppend(r.s.log, kept);
    ReopenedLog(c, r.s.(log := r.s.log + kept), TornFile(c, r, nonces, n));
    forall i | 0 <= i < |r.s.log + kept|
      ensures RecLoads(x, c, (r.s.log + kept)[i])
    {
      assert (r.s.log + kept)[i] == (r.s.log + rs)[i];
    }
  }

  lemma NextTells(x: Reader, c: Codec, r: Run, step: Step)
    requires Inverse(c) && FileOk(r.s) && Enabled(c, r, step) && Telling(x, c, r) && StepTells(x, r, step)
    ensures Telling(x, c, Next(c, r, step))
  {
    hide IsOrdered, OpsTell, LogLoads, LogTells, Inverse, EncodeAll, Sealed, AllFit, ReadEntry, PrepareFlush, Patched,
         AfterWrite, AfterTear, Reopen, TornAppend, Lists, AllIdx;
    match step
    case SnapshotStep(ks, idx) =>
      var p := PrepareFlush(c, r.s, ks, idx);
      KeepsLog(c, r.s, ks, idx);
      if p.Ready? { StagedTells(x, c, r, ks, idx, p.s, p.st); }
    case WriteStep(nonces, header) => WriteTells(x, c, r, nonces, header);
    case CrashInWriteStep(nonces, n) => TearTells(x, c, r, nonces, n);
    case CrashStep => ReopenedLog(c, r.s, File(c, r.s));
    case _ =>
  }

  lemma KeepsLog(c: Codec, s: Store, ks: seq<Key>, idx: seq<Op>)
    requires FileOk(s) && Lists(ks, s.entries.Keys)
    ensures var p := PrepareFlush(c, s, ks, idx); !p.Nothing? ==> p.s.log == s.log
  {
    hide StageDocs, OrderOps, Loaded, AllFit;
  }

  /** The invariant holds of every state of every run whose flushes stage what their
      collections say. */
  lemma {:induction false} RunsTell(x: Reader, c: Codec, rs: seq<Run>, steps: seq<Step>, i: nat)
    requires Inverse(c) && IsRun(c, rs, steps) && i < |rs|
    requires forall j | 0 <= j < |steps| :: StepTells(x, rs[j], steps[j])
    ensures Telling(x, c, rs[i])
  {
    hide Next, Enabled, FileOk, Inverse, Telling;
    if i == 0 {
      StartTells(x, c, rs[0].s.header);
    } else {
      RunsTell(x, c, rs, steps, i - 1);
      NextTells(x, c, rs[i - 1], steps[i - 1]);
    }
  }

  lemma StartTells(x: Reader, c: Codec, header: Bytes)
    ensures Telling(x, c, Start(header))
  {
  }

  // ---------------------------------------------------------------- what an open finds

  lemma {:induction false} LastTold(x: Reader, c: Codec, rs: seq<Rec>, at: nat, docs: map<Key, Doc>, coll: Bytes,
      def: Def)
    requires AllFit(rs) && LogTells(x, c, rs, docs) && InForce(x, c, rs, coll, def)
    ensures LastTells(x, IdxTexts(c, Place(c.crc, rs, at)), coll, def, DocsIn(docs, coll))
  {
    hide Tells, TextOf, Layout, BuildRecord;
    var n := |rs| - 1;
    var front, r := rs[..n], rs[n];
    assert front + [r] == rs;
    LastOfLog(x, c, front, r, at, coll, def);
    assert NoMetaAfter(rs, n);
    if RecIsFor(x, c, r, coll, def) {
      assert RecTells(x, c, rs[n], docs);
    } else {
      FrontTells(x, c, front, r, docs, coll, def);
      LastTold(x, c, front, at, docs, coll, def);
    }
  }

  lemma LastOfLog(x: Reader, c: Codec, front: seq<Rec>, r: Rec, at: nat, coll: Bytes, def: Def)
    requires AllFit(front + [r])
    ensures AllFit(front)
    ensures LastFor(x, IdxTexts(c, Place(c.crc, front + [r], at)), coll, def)
            == if RecIsFor(x, c, r, coll, def) then Some(TextOf(c, r).value.text)
               else LastFor(x, IdxTexts(c, Place(c.crc, front, at)), coll, def)
  {
    hide TextOf, Layout, BuildRecord, IsFor;
    assert (front + [r])[..|front|] == front;
    assert forall i | 0 <= i < |front| :: front[i] == (front + [r])[i];
    var ps := Place(c.crc, front + [r], at);
    assert ps[..|front|] == Place(c.crc, front, at);
    var list := IdxTexts(c, Place(c.crc, front, at));
    if TextOf(c, r).Some? {
      assert (list + [TextOf(c, r).value])[..|list|] == list;
    } else {
      assert list + [] == list;
    }
  }

  /** Without its last record, unless that is a META. */
  lemma FrontTells(x: Reader, c: Codec, front: seq<Rec>, r: Rec, docs: map<Key, Doc>, coll: Bytes, def: Def)
    requires LogTells(x, c, front + [r], docs) && InForce(x, c, front + [r], coll, def)
    requires !RecIsFor(x, c, r, coll, def)
    ensures LogTells(x, c, front, docs) && InForce(x, c, front, coll, def)
  {
    hide Tells, TextOf, RecTells, RecIsFor;
    var rs := front + [r];
    var i :| 0 <= i < |rs| && NoMetaAfter(rs, i) && RecIsFor(x, c, rs[i], coll, def);
    assert i < |front| && rs[i] == front[i];
    assert rs[|front|] == r && r.typ != REC_META;
    forall j | 0 <= j < |front| && NoMetaAfter(front, j)
      ensures RecTells(x, c, front[j], docs)
    {
      assert rs[j] == front[j];
      assert NoMetaAfter(rs, j);
    }
    assert forall j | 0 <= j < |front| :: rs[j] == front[j];
    assert NoMetaAfter(front, i);
  }

  /** The index texts an open finds in a file, in log order. */
  function FileTexts(c: Codec, data: Bytes): seq<IdxText>
  {
    var recs := Walk(c.crc, data, HEADER_SIZE).recs;
    IdxTexts(c, recs[..CommitCount(recs)])
  }

  /** In every state of every run, each index serialized with the last META is loaded
      from a text that tells of the documents the last durable batch was staged from. */
  lemma OpenFinds(x: Reader, c: Codec, r: Run, coll: Bytes)
    requires FileOk(r.s) && Telling(x, c, r)
    ensures AllLoad(x, coll, FileTexts(c, File(c, r.s)))
    ensures forall def | InForce(x, c, Sealed(r.s.log), coll, def) ::
              LastTells(x, FileTexts(c, File(c, r.s)), coll, def, DocsIn(r.durable, coll))
  {
    hide Walk, Layout, Place, CommitCount, InForce, LogTells, LastTells, CommittedLen, RecLoads, IdxTexts;
    var log := Sealed(r.s.log);
    SealedWalk(c.crc, r.s.header, r.s.log);
    assert LogLoads(x, c, log);
    AllTextsLoad(x, c, log, HEADER_SIZE, coll);
    forall def | InForce(x, c, log, coll, def)
      ensures LastTells(x, FileTexts(c, File(c, r.s)), coll, def, DocsIn(r.durable, coll))
    {
      LastTold(x, c, log, HEADER_SIZE, r.durable, coll, def);
    }
  }

  lemma {:induction false} AllTextsLoad(x: Reader, c: Codec, rs: seq<Rec>, at: nat, coll: Bytes)
    requires AllFit(rs) && LogLoads(x, c, rs)
    ensures AllLoad(x, coll, IdxTexts(c, Place(c.crc, rs, at)))
  {
    hide TextOf, Loads, Layout, BuildRecord;
    if rs != [] {
      var n := |rs| - 1;
      var front := rs[..n];
      AllTextsLoad(x, c, front, at, coll);
      assert Place(c.crc, rs, at)[..n] == Place(c.crc, front, at);
      assert RecLoads(x, c, rs[n]);
    }
  }

  /** Reopen one collection of a file some run has left: the definitions META lists,
      which were staged with the texts in force, and the documents the open shows. Its
      indexes are sound exactly when these documents give the same rows as those of
      the last durable batch; in a state that keeps the promise they are the same. */
  method OpenCollection(x: Reader, c: Codec, fits: Doc -> bool, data: Bytes, coll: Bytes, defs: seq<Def>,
      docs: map<Bytes, Doc>, ghost r: Run) returns (got: Option<Collection>)
    requires TextsOk(x.tx) && DefsOk(defs)
    requires FileOk(r.s) && data == File(c, r.s) && Telling(x, c, r)
    requires forall j | 0 <= j < |defs| :: InForce(x, c, Sealed(r.s.log), coll, defs[j])
    ensures got.Some? ==> fresh(got.value) && got.value.docs == docs && got.value.Ready()
    ensures got.Some? ==>
              (got.value.Valid() <==>
               forall j | 0 <= j < |defs| :: SameRows(x.tx, defs[j].fields, DocsIn(r.durable, coll), docs))
    ensures got.Some? && Inv(c, r) && docs == DocsIn(r.durable, coll) ==> got.value.Valid()
    ensures Inv(c, r) && r.s.log != [] ==> (got.Some? <==> AllDefined(x, coll, defs, FileTexts(c, data)))
  {
    hide TextsOk, DefsOk, InForce, Telling, Inv, SameRows, LastTells, AllDefined, Seen, AllLoad, Walk, IdxTexts, FileOk,
         File, Collection.Valid, Collection.Ready, Decodable;
    OpenFinds(x, c, r, coll);
    AllSeen(x, FileTexts(c, data), coll, defs, DocsIn(r.durable, coll));
    if Inv(c, r) && r.s.log != [] { OpenScans(c, r); }
    var first := CollectRecords(c.crc, data);
    if first.PassError? || first.lastCommit < 0 { return None; }
    var second := ApplyRecords(c, first.recs, first.lastCommit, |data|);
    if second.ApplyError? { return None; }
    got := AttachIndexes(x, fits, coll, defs, second.idx, docs, DocsIn(r.durable, coll));
    SameAsItself(x.tx, defs, DocsIn(r.durable, coll));
  }

  lemma AllSeen(x: Reader, list: seq<IdxText>, coll: Bytes, defs: seq<Def>, told: map<Bytes, Doc>)
    requires forall j | 0 <= j < |defs| :: LastTells(x, list, coll, defs[j], told)
    ensures forall j | 0 <= j < |defs| :: Seen(x, list, coll, defs[j])
  {
    hide Seen, Tells;
    forall j | 0 <= j < |defs|
      ensures Seen(x, list, coll, defs[j])
    {
      assert LastTells(x, list, coll, defs[j], told);
      TextIsSeen(x, list, coll, defs[j]);
    }
  }

  lemma SameAsItself(tx: Texts, defs: seq<Def>, docs: map<Bytes, Doc>)
    ensures forall j | 0 <= j < |defs| :: SameRows(tx, defs[j].fields, docs, docs)
  {
  }

  /** The scan of a file a promise-keeping store has written does not fail. */
  lemma OpenScans(c: Codec, r: Run)
    requires Inv(c, r) && r.s.log != []
    ensures FileOk(r.s)
    ensures var w := Walk(c.crc, File(c, r.s), HEADER_SIZE);
            && w.end == AtEnd && CommitEnd(w.recs) >= 0 && Decodable(c, w.recs[..CommitCount(w.recs)])
  {
    hide Walk, Layout, Place, CommittedLen, Decodable, RecDecodable, Holds, Inv;
    EntryKeys(c, r);
    DurableLog(c, r);
    SealedWalk(c.crc, r.s.header, r.s.log);
    PlacedReadable(c, Sealed(r.s.log));
  }

  // ---------------------------------------------------------------- a torn append and the indexes

  /** The run of FlushFailures.TornTailResurfaces with its indexes: the flush after the
      tear commits the second document and serializes indexes that never saw it. Each
      of them reflects the first document alone, so once the open shows the second,
      the index is unsound if it has a row of it at all. */
  lemma TornTailMissesIndex(x: Reader, c: Codec, header: Bytes, k: Key, d: Doc, k2: Key, d2: Doc, idx: seq<seq<Op>>,
      nonces: seq<seq<Bytes>>) returns (rs: seq<Run>)
    requires Inverse(c) && |header| == HEADER_SIZE && k != k2 && k.coll == k2.coll
    requires |idx| == 3 == |nonces| && AllIdx(idx[0]) && AllIdx(idx[1]) && AllIdx(idx[2])
    requires |nonces[0]| == |FirstOps(k, d, idx[0])| && AllFit(EncodeAll(c, FirstOps(k, d, idx[0]), nonces[0]))
    requires |nonces[1]| == |FirstOps(k2, d2, idx[1])| && AllFit(EncodeAll(c, FirstOps(k2, d2, idx[1]), nonces[1]))
    requires var ops := OrderOps([], [], {k.coll}, idx[2]);
             |nonces[2]| == |ops| && AllFit(EncodeAll(c, ops, nonces[2]))
    requires OpsTell(x, idx[0], map[k := d]) && OpsTell(x, idx[1], map[k := d, k2 := d2])
    requires OpsTell(x, idx[2], map[k := d])
    ensures |rs| == 13
    ensures IsRun(c, rs, CreatedSteps(header, k, d, idx[0], nonces[0]) + TornSteps(c, header, k, k2, d2, idx, nonces))
    ensures FileOk(rs[12].s) && Telling(x, c, rs[12])
    ensures var r := Recover(c, File(c, rs[12].s)); r.Docs? && k2 in r.entries
    ensures forall def | InForce(x, c, Sealed(rs[12].s.log), k.coll, def) ::
      && LastTells(x, FileTexts(c, File(c, rs[12].s)), k.coll, def, map[k.id := d])
      && forall docs: map<Bytes, Doc> | k2.id in docs && KeySet(x.tx, docs[k2.id], def.fields) != {} ::
           !SameRows(x.tx, def.fields, map[k.id := d], docs)
  {
    hide Inv, Inverse, EncodeAll, FileOk, IsRun, FirstOps, Recover, File, OrderOps, AllFit, AllIdx, OpsTell, Telling,
         InForce, LastTells, FileTexts, SameRows, Sealed;
    rs := TornTailResurfaces(c, header, k, d, k2, d2, idx, nonces);
    var steps := CreatedSteps(header, k, d, idx[0], nonces[0]) + TornSteps(c, header, k, k2, d2, idx, nonces);
    TornStepsTell(x, c, rs, header, k, d, k2, d2, idx, nonces);
    RunsTell(x, c, rs, steps, 12);
    OpenFinds(x, c, rs[12], k.coll);
    assert DocsIn(map[k := d], k.coll) == map[k.id := d];
    forall def: Def, docs: map<Bytes, Doc> | k2.id in docs && KeySet(x.tx, docs[k2.id], def.fields) != {}
      ensures !SameRows(x.tx, def.fields, map[k.id := d], docs)
    {
      MissesRow(x.tx, def.fields, map[k.id := d], docs, k2.id);
    }
  }

  lemma MissesRow(tx: Texts, fields: seq<Bytes>, told: map<Bytes, Doc>, docs: map<Bytes, Doc>, id: Bytes)
    requires id !in told && id in docs && KeySet(tx, docs[id], fields) != {}
    ensures !SameRows(tx, fields, told, docs)
  {
    hide KeySet;
    var key :| key in KeySet(tx, docs[id], fields);
    assert Produces(tx, fields, docs, key, id) && !Produces(tx, fields, told, key, id);
  }

  lemma TornStepsTell(x: Reader, c: Codec, rs: seq<Run>, header: Bytes, k: Key, d: Doc, k2: Key, d2: Doc,
      idx: seq<seq<Op>>, nonces: seq<seq<Bytes>>)
    requires |idx| == 3 == |nonces|
    requires |nonces[1]| == |FirstOps(k2, d2, idx[1])| && AllFit(EncodeAll(c, FirstOps(k2, d2, idx[1]), nonces[1]))
    requires var steps := CreatedSteps(header, k, d, idx[0], nonces[0]) + TornSteps(c, header, k, k2, d2, idx, nonces);
             IsRun(c, rs, steps)
    requires |rs| == 13 ==> rs[8].plain == map[k := d]
    requires OpsTell(x, idx[0], map[k := d]) && OpsTell(x, idx[1], map[k := d, k2 := d2])
    requires OpsTell(x, idx[2], map[k := d])
    ensures var steps := CreatedSteps(header, k, d, idx[0], nonces[0]) + TornSteps(c, header, k, k2, d2, idx, nonces);
            forall j | 0 <= j < |steps| :: StepTells(x, rs[j], steps[j])
  {
    hide FirstOps, FirstSize, EncodeAll, AllFit, OpsTell, IsRun;
    var steps := CreatedSteps(header, k, d, idx[0], nonces[0]) + TornSteps(c, header, k, k2, d2, idx, nonces);
    assert |steps| == 12 && steps[0] == CreateCollStep(k.coll) && steps[1] == PutStep(k, d);
    assert steps[2] == SnapshotStep([k], idx[0]) && steps[3] == WriteStep(nonces[0], header) && steps[4] == ReconcileStep;
    assert steps[5] == PutStep(k2, d2) && steps[6] == SnapshotStep([k, k2], idx[1]) && steps[8] == SchemaStep;
    assert steps[9] == SnapshotStep([k], idx[2]);
    StartsEmpty(c, rs, steps);
    MovesPlain(c, rs, steps, 0);
    MovesPlain(c, rs, steps, 1);
    MovesPlain(c, rs, steps, 2);
    MovesPlain(c, rs, steps, 3);
    MovesPlain(c, rs, steps, 4);
    MovesPlain(c, rs, steps, 5);
    MovesPlain(c, rs, steps, 8);
    assert rs[2].plain == map[k := d];
    assert rs[6].plain == map[k := d, k2 := d2];
  }

  lemma StartsEmpty(c: Codec, rs: seq<Run>, steps: seq<Step>)
    requires IsRun(c, rs, steps)
    ensures |rs| == |steps| + 1 && rs[0].plain == map[]
  {
  }

  lemma MovesPlain(c: Codec, rs: seq<Run>, steps: seq<Step>, i: nat)
    requires IsRun(c, rs, steps) && i < |steps|
    requires var step := steps[i];
             || step.CreateCollStep? || step.PutStep? || step.SnapshotStep? || step.WriteStep? || step.ReconcileStep?
             || step.SchemaStep?
    ensures |rs| == |steps| + 1
    ensures rs[i + 1].plain == if steps[i].PutStep? then rs[i].plain[steps[i].k := steps[i].d] else rs[i].plain
  {
    hide Next, Enabled, FileOk;
    StepPlain(c, rs[i], steps[i]);
  }
}
