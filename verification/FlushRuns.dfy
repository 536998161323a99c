/** Runs of the durability protocol: mutations, flush steps, cache loads and
    evictions, collection drops, compactions and crashes in any order. The invariant
    ties the store to a plain map of documents and the file to a map once held. */
module FlushRuns {
  import opened ByteCodec
  import opened Values
  import opened RecordLog
  import opened TornTail
  import opened FlushProtocol

  /** Where the flush protocol stands. snap is the plain map at the snapshot;
      before is the log as it was when the write began. */
  datatype Phase =
    | Idle
    | Snapped(st: FlushState, snap: map<Key, Doc>)
    | Written(st: FlushState, snap: map<Key, Doc>, places: seq<Placed>, before: seq<Rec>)

  /** The store, the plain uncached map it must behave like, the map the file holds,
      and every plain map the run has gone through. */
  datatype Run = Run(
    s: Store,
    phase: Phase,
    plain: map<Key, Doc>,
    durable: map<Key, Doc>,
    history: seq<map<Key, Doc>>)

  /** The log the offsets of clean entries refer to. */
  function OffsetsLog(r: Run): seq<Rec>
  {
    if r.phase.Written? && r.phase.st.full then r.phase.before else r.s.log
  }

  /** One slot against its plain document d; disk is the file's document for the
      key, pending says whether a deletion of the key is queued. */
  ghost predicate EntryOk(c: Codec, log: seq<Rec>, e: Entry, d: Doc, disk: Option<Doc>, pending: bool, gen: nat)
    requires AllFit(log)
  {
    && (e.doc.Some? ==> e.doc.value == d)
    && (e.doc.None? ==> !e.dirty)
    && (!e.dirty ==> DecodesAt(c, log, e.recOff, e.recLen, d) && disk == Some(d) && !pending)
    && e.mutGen <= gen
  }

  ghost predicate EntriesOk(c: Codec, s: Store, log: seq<Rec>, plain: map<Key, Doc>, durable: map<Key, Doc>)
    requires AllFit(log)
  {
    && s.entries.Keys == plain.Keys
    && forall k <- plain ::
         && k.coll in s.colls
         && EntryOk(c, log, s.entries[k], plain[k], Get(durable, k), Pending(s.pendingDels, k), s.dirtyGen)
  }

  /** A durable document that is gone from memory has its deletion queued, and a
      key deleted and stored again was stored later than every queued deletion. */
  ghost predicate DelsOk(s: Store, plain: map<Key, Doc>, durable: map<Key, Doc>)
    requires s.entries.Keys == plain.Keys
  {
    && (forall k <- durable | k !in plain :: Pending(s.pendingDels, k))
    && (forall i | 0 <= i < |s.pendingDels| ::
          var d := s.pendingDels[i];
          d.gen <= s.dirtyGen && (d.key in plain ==> s.entries[d.key].mutGen > d.gen))
  }

  ghost predicate QuietOk(s: Store)
  {
    !s.dirty ==> s.pendingDels == [] && forall k <- s.entries :: !s.entries[k].dirty
  }

  /** The records hold exactly this map. */
  ghost predicate Holds(c: Codec, log: seq<Rec>, docs: map<Key, Doc>)
  {
    && Contents(map[], log).Keys == docs.Keys
    && forall k <- docs :: OnDisk(c, log, k) == Some(docs[k])
  }

  predicate Covers(meta: Option<set<Bytes>>, docs: map<Key, Doc>)
  {
    meta.Some? && forall k <- docs :: k.coll in meta.value
  }

  /** The file holds exactly the durable map, with the records a torn append may
      have left behind its last COMMIT and without them, and META lists its
      collections. */
  ghost predicate LogOk(c: Codec, log: seq<Rec>, durable: map<Key, Doc>)
  {
    && (log == [] || Sealed(log) != [])
    && Holds(c, log, durable) && Holds(c, Sealed(log), durable) && Readable(c, log)
    && (log != [] ==> Covers(MetaOf(c, Sealed(log)), durable))
  }

  /** What stays true of the entries between a snapshot and its reconciliation. */
  ghost predicate SinceSnapshot(s: Store, plain: map<Key, Doc>, st: FlushState, snap: map<Key, Doc>)
    requires s.entries.Keys == plain.Keys
  {
    && st.gen <= s.dirtyGen && s.flushInProgress
    && (forall k <- plain | s.entries[k].mutGen <= st.gen ::
          && Get(snap, k) == Some(plain[k])
          && (s.entries[k].dirty ==> LastOp(st.ops, k).Stores?))
    && (forall k <- plain | s.entries[k].mutGen > st.gen :: s.entries[k].dirty)
    && (forall k <- snap | k !in plain :: Pending(KeepLater(s.pendingDels, st.gen), k))
    && (!st.full && st.dels == [] ==> KeepLater(s.pendingDels, st.gen) == s.pendingDels)
  }

  function DiskAfter(op: OpAction, full: bool, disk: Option<Doc>): Option<Doc>
  {
    match op
    case Stores(d) => Some(d)
    case Drops => None
    case Untouched => if full then None else disk
  }

  /** The batch is in durable order and its META lists every collection in use. */
  ghost predicate IsOrdered(ops: seq<Op>, snap: map<Key, Doc>)
  {
    exists dels, docs: seq<Op>, colls, idx ::
      && ops == OrderOps(dels, docs, colls, idx) && AllIdx(idx)
      && (forall i | 0 <= i < |docs| :: docs[i].DocOp?)
      && (forall k <- snap :: k.coll in colls)
  }

  /** Writing the batch makes the file hold exactly snap. */
  ghost predicate BatchYields(c: Codec, durable: map<Key, Doc>, st: FlushState, snap: map<Key, Doc>)
  {
    && IsOrdered(st.ops, snap)
    && forall k: Key :: Get(snap, k) == DiskAfter(LastOp(st.ops, k), st.full, Get(durable, k))
  }

  ghost predicate PlacesOk(c: Codec, log: seq<Rec>, st: FlushState, places: seq<Placed>, snap: map<Key, Doc>)
    requires AllFit(log)
  {
    && |places| == |st.ops|
    && forall k: Key ::
         && (OffsetFor(st.ops, places, k).Some? <==> LastOp(st.ops, k).Stores?)
         && (OffsetFor(st.ops, places, k).Some? && k in snap ==>
               var p := OffsetFor(st.ops, places, k).value;
               DecodesAt(c, log, p.off, p.len, snap[k]))
  }

  ghost predicate PhaseOk(c: Codec, r: Run)
    requires r.s.entries.Keys == r.plain.Keys && AllFit(r.s.log)
  {
    match r.phase
    case Idle => true
    case Snapped(st, snap) =>
      && SinceSnapshot(r.s, r.plain, st, snap) && BatchYields(c, r.durable, st, snap)
      && snap in r.history
    case Written(st, snap, places, before) =>
      && SinceSnapshot(r.s, r.plain, st, snap) && PlacesOk(c, r.s.log, st, places, snap)
      && AllFit(before) && r.durable == snap && snap in r.history && r.s.log != []
      && (st.full ==> forall k <- snap :: LastOp(st.ops, k).Stores?)
  }

  ghost predicate FlagsOk(r: Run)
  {
    && (r.s.sawFile ==> r.s.log != [])
    && (r.s.log != [] && !r.phase.Written? ==> r.s.sawFile)
    && (!r.phase.Idle? ==> r.s.flushInProgress)
    && r.plain in r.history && r.durable in r.history
  }

  ghost predicate Inv(c: Codec, r: Run)
  {
    && Inverse(c) && FileOk(r.s) && AllFit(OffsetsLog(r))
    && EntriesOk(c, r.s, OffsetsLog(r), r.plain, r.durable)
    && DelsOk(r.s, r.plain, r.durable)
    && QuietOk(r.s)
    && LogOk(c, r.s.log, r.durable)
    && FlagsOk(r)
    && PhaseOk(c, r)
  }

  // ---------------------------------------------------------------- the two promises of the invariant

  /** The log, minus queued deletions, plus dirty entries. */
  ghost function Overlay(r: Run): map<Key, Doc>
    requires r.s.entries.Keys == r.plain.Keys
  {
    var kept := map k | k in r.durable && !Pending(r.s.pendingDels, k) :: r.durable[k];
    kept + (map k | k in r.plain && r.s.entries[k].dirty && r.s.entries[k].doc.Some? :: r.s.entries[k].doc.value)
  }

  /** In a sound state the file minus the queued deletions plus the dirty entries is
      the memory map; and when nothing is dirty the file alone is. */
  lemma OverlayIsPlain(c: Codec, r: Run)
    requires Inv(c, r)
    ensures Overlay(r) == r.plain
    ensures !r.s.dirty ==> r.durable == r.plain
  {
    hide Inverse, FileOk, LogOk, FlagsOk, PhaseOk, DecodesAt, OffsetsLog;
    var o := Overlay(r);
    forall k: Key
      ensures Get(o, k) == Get(r.plain, k)
      ensures !r.s.dirty ==> Get(r.durable, k) == Get(r.plain, k)
    {
    }
    SameMap(o, r.plain);
    if !r.s.dirty { SameMap(r.durable, r.plain); }
  }

  lemma SameMap<V>(a: map<Key, V>, b: map<Key, V>)
    requires forall k: Key :: Get(a, k) == Get(b, k)
    ensures a == b
  {
    forall k: Key
      ensures k in a <==> k in b
      ensures k in a ==> a[k] == b[k]
    {
      assert Get(a, k) == Get(b, k);
    }
  }

  lemma {:induction false} DecodeInFile(c: Codec, header: Bytes, log: seq<Rec>, post: Bytes, off: int, len: int, d: Doc)
    requires |header| == HEADER_SIZE && AllFit(log) && DecodesAt(c, log, off, len, d)
    ensures var file := header + Layout(c.crc, log) + post;
            len > 0 && 0 <= off && off + len <= |file| && DecodeDocRecord(c, file[off..off + len]) == Some(d)
  {
    hide Layout, Place, ParseRecordAt;
    var i :| 0 <= i < |log| && RecordIs(c, log, i, off, len, d);
    SliceAtPlace(c.crc, header, log, post, i);
    var b := BuildRecord(c.crc, log[i]);
    ParseBuilt(c.crc, [], log[i], []);
    assert [] + b + [] == b;
  }

  lemma {:induction false} DecodeAtPlace(c: Codec, s: Store, off: int, len: int, d: Doc)
    requires FileOk(s) && DecodesAt(c, s.log, off, len, d)
    ensures len > 0 && 0 <= off && off + len <= |File(c, s)|
    ensures DecodeDocRecord(c, File(c, s)[off..off + len]) == Some(d)
  {
    hide Layout, DecodesAt, DecodeDocRecord;
    DecodeInFile(c, s.header, s.log, [], off, len, d);
    assert File(c, s) + [] == File(c, s);
  }

  /** Offsets and file belong together except between a full rewrite and its
      reconciliation. */
  predicate ReadsSafe(r: Run) { !(r.phase.Written? && r.phase.st.full) }

  /** Reading any document, warm or cold, gives what the plain map gives. */
  lemma ReadRefines(c: Codec, r: Run, k: Key)
    requires Inv(c, r) && k in r.plain
    requires ReadsSafe(r) || r.s.entries[k].doc.Some?
    ensures ReadEntry(c, r.s, r.s.entries[k]) == Found(r.plain[k])
  {
    hide DecodeDocRecord, File, Inverse, LogOk, FlagsOk, PhaseOk, DelsOk, QuietOk, DecodesAt;
    var e := r.s.entries[k];
    if e.doc.None? {
      DecodeAtPlace(c, r.s, e.recOff, e.recLen, r.plain[k]);
    }
  }

  // ---------------------------------------------------------------- steps

  datatype Step =
    | PutStep(k: Key, d: Doc)
    | UpdateStep(k: Key, patch: Doc, remove: set<Bytes>)
    | RemoveStep(k: Key)
    | LoadStep(k: Key)
    | EvictStep(k: Key)
    | CreateCollStep(coll: Bytes)
    | DropCollStep(coll: Bytes)
    | SchemaStep
    | CompactStep
    | SnapshotStep(ks: seq<Key>, idx: seq<Op>)
    | WriteStep(nonces: seq<Bytes>, header: Bytes)
    | ReconcileStep
    | CrashStep
    | CrashInWriteStep(nonces: seq<Bytes>, n: nat)

  /** An append of the staged batch that stops after n bytes. */
  predicate TornAppend(c: Codec, r: Run, nonces: seq<Bytes>, n: nat)
  {
    && r.phase.Snapped? && !r.phase.st.full && r.s.log != [] && |nonces| == |r.phase.st.ops|
    && AllFit(EncodeAll(c, r.phase.st.ops, nonces))
    && n <= |Layout(c.crc, EncodeAll(c, r.phase.st.ops, nonces))|
  }

  /** What the program lets happen. Whether it should is a question of its own. */
  predicate Enabled(c: Codec, r: Run, step: Step)
  {
    match step
    case UpdateStep(k, _, _) => k in r.s.entries
    case RemoveStep(k) => k in r.s.entries
    case LoadStep(k) => k in r.s.entries
    case EvictStep(k) => k in r.s.entries && !r.s.entries[k].dirty
    case DropCollStep(coll) => coll in r.s.colls
    case SnapshotStep(ks, idx) => r.phase.Idle? && Lists(ks, r.s.entries.Keys) && AllIdx(idx)
    case WriteStep(nonces, header) =>
      r.phase.Snapped? && |nonces| == |r.phase.st.ops| && |header| == HEADER_SIZE
    case ReconcileStep => r.phase.Written? && |r.phase.places| == |r.phase.st.ops|
    case CrashInWriteStep(nonces, n) => TornAppend(c, r, nonces, n)
    case _ => true
  }

  /** A reopened store: every recovered document is cold, at its recorded offset, and
      every collection META lists is there, with documents or without. */
  function Reopen(c: Codec, s: Store, data: Bytes): Store
  {
    if s.log == [] then Store(map[], {}, [], 0, true, false, false, false, s.header, [])
    else match Recover(c, data)
      case Lost => s
      case Docs(m, meta) =>
        var entries := map k | k in m :: Entry(None, m[k].off, m[k].len, false, 0);
        var colls := if meta.Some? then meta.value else set k | k in m :: k.coll;
        Store(entries, colls, [], 0, false, true, false, false, s.header, s.log)
  }

  /** An update works on the document it reads, an uncached map on its own. */
  function AfterUpdate(c: Codec, r: Run, k: Key, patch: Doc, remove: set<Bytes>): Run
    requires FileOk(r.s) && k in r.s.entries
  {
    match ReadEntry(c, r.s, r.s.entries[k])
    case Found(d) =>
      Mutated(r, Put(r.s, k, Patched(d, patch, remove)),
              if k in r.plain then r.plain[k := Patched(r.plain[k], patch, remove)] else r.plain)
    case _ => r
  }

  /** A deletion first reads the document, and is refused when that fails. */
  function AfterRemove(c: Codec, r: Run, k: Key): Run
    requires FileOk(r.s) && k in r.s.entries
  {
    if ReadEntry(c, r.s, r.s.entries[k]).Unreadable? then r
    else Mutated(r, Remove(r.s, k), r.plain - {k})
  }

  function Without<V>(m: map<Key, V>, coll: Bytes): map<Key, V> { map k | k in m && k.coll != coll :: m[k] }

  /** The last part of dropping a collection: whatever documents are in it by now go
      with it, without a deletion being queued. */
  function Dropped(s: Store, coll: Bytes): Store
  {
    Touched(s).(entries := Without(s.entries, coll), colls := s.colls - {coll})
  }

  function WithEntry(r: Run, k: Key, e: Entry): Run
  {
    r.(s := r.s.(entries := r.s.entries[k := e]))
  }

  function AfterSnapshot(c: Codec, r: Run, ks: seq<Key>, idx: seq<Op>): Run
    requires FileOk(r.s) && Lists(ks, r.s.entries.Keys)
  {
    match PrepareFlush(c, r.s, ks, idx)
    case Ready(s, st) => r.(s := s, phase := Snapped(st, r.plain))
    case ReadError(s) => r.(s := s)
    case Nothing => r
  }

  function AfterWrite(c: Codec, r: Run, nonces: seq<Bytes>, header: Bytes): Run
    requires FileOk(r.s) && r.phase.Snapped? && |nonces| == |r.phase.st.ops| && |header| == HEADER_SIZE
  {
    match WriteState(c, r.s, r.phase.st, nonces, header)
    case WriteFailed(s) => r.(s := s, phase := Idle)
    case Wrote(s, places) =>
      r.(s := s, phase := Written(r.phase.st, r.phase.snap, places, r.s.log), durable := r.phase.snap)
  }

  function Reconciled(r: Run): Run
    requires r.phase.Written? && |r.phase.places| == |r.phase.st.ops|
  {
    r.(s := ApplyFlushed(r.s, r.phase.st, r.phase.places), phase := Idle)
  }

  function Reopened(c: Codec, r: Run, data: Bytes): Run
  {
    r.(s := Reopen(c, r.s, data), phase := Idle, plain := r.durable)
  }

  function TornFile(c: Codec, r: Run, nonces: seq<Bytes>, n: nat): Bytes
    requires FileOk(r.s) && TornAppend(c, r, nonces, n)
  {
    File(c, r.s) + Layout(c.crc, EncodeAll(c, r.phase.st.ops, nonces))[..n]
  }

  /** What a crash n bytes into an append leaves durable: the snapshot once the
      whole batch is there, and the old map before. */
  function TornDocs(c: Codec, r: Run, nonces: seq<Bytes>, n: nat): map<Key, Doc>
    requires TornAppend(c, r, nonces, n)
  {
    if n == |Layout(c.crc, EncodeAll(c, r.phase.st.ops, nonces))| then r.phase.snap else r.durable
  }

  function TornLog(c: Codec, r: Run, nonces: seq<Bytes>, n: nat): seq<Rec>
    requires TornAppend(c, r, nonces, n)
  {
    r.s.log + Kept(c.crc, EncodeAll(c, r.phase.st.ops, nonces), n)
  }

  /** The store reopened on a torn file, with what the open leaves in it. */
  function AfterTear(c: Codec, r: Run, nonces: seq<Bytes>, n: nat): Run
    requires FileOk(r.s) && TornAppend(c, r, nonces, n)
  {
    var s := Reopen(c, r.s.(log := TornLog(c, r, nonces, n)), TornFile(c, r, nonces, n));
    var docs := TornDocs(c, r, nonces, n);
    Run(s, Idle, docs, docs, r.history)
  }

  function Compacting(s: Store): Store { (if s.dirty then s else Touched(s)).(compactForce := true) }

  function Next(c: Codec, r: Run, step: Step): Run
    requires FileOk(r.s) && Enabled(c, r, step)
  {
    match step
    case PutStep(k, d) => Mutated(r, Put(r.s, k, d), r.plain[k := d])
    case UpdateStep(k, patch, remove) => AfterUpdate(c, r, k, patch, remove)
    case RemoveStep(k) => AfterRemove(c, r, k)
    case LoadStep(k) => WithEntry(r, k, Loaded(c, r.s, r.s.entries[k]))
    case EvictStep(k) => WithEntry(r, k, r.s.entries[k].(doc := None))
    case CreateCollStep(coll) => r.(s := Touched(r.s).(colls := r.s.colls + {coll}))
    case DropCollStep(coll) => Mutated(r, Dropped(r.s, coll), Without(r.plain, coll))
    case SchemaStep => r.(s := Touched(r.s))
    case CompactStep => r.(s := Compacting(r.s))
    case SnapshotStep(ks, idx) => AfterSnapshot(c, r, ks, idx)
    case WriteStep(nonces, header) => AfterWrite(c, r, nonces, header)
    case ReconcileStep => Reconciled(r)
    case CrashStep => Reopened(c, r, File(c, r.s))
    case CrashInWriteStep(nonces, n) => AfterTear(c, r, nonces, n)
  }

  function Mutated(r: Run, s: Store, plain: map<Key, Doc>): Run
  {
    r.(s := s, plain := plain, history := r.history + [plain])
  }

  // ---------------------------------------------------------------- mutations keep the invariant

  lemma {:induction false} KeepLaterSnoc(dels: seq<DelItem>, d: DelItem, gen: nat)
    ensures KeepLater(dels + [d], gen) == KeepLater(dels, gen) + (if d.gen > gen then [d] else [])
  {
    assert (dels + [d])[..|dels|] == dels;
  }

  lemma PendingSnoc(dels: seq<DelItem>, d: DelItem, k: Key)
    ensures Pending(dels + [d], k) <==> Pending(dels, k) || d.key == k
  {
    if Pending(dels, k) {
      var i :| 0 <= i < |dels| && dels[i].key == k;
      assert (dels + [d])[i].key == k;
    }
    if d.key == k { assert (dels + [d])[|dels|].key == k; }
  }

  lemma PutEntries(c: Codec, s: Store, log: seq<Rec>, plain: map<Key, Doc>, durable: map<Key, Doc>, k: Key, d: Doc)
    requires AllFit(log) && EntriesOk(c, s, log, plain, durable) && DelsOk(s, plain, durable) && QuietOk(s)
    ensures EntriesOk(c, Put(s, k, d), log, plain[k := d], durable)
    ensures DelsOk(Put(s, k, d), plain[k := d], durable)
    ensures QuietOk(Put(s, k, d))
  {
    hide AllFit, DecodesAt;
  }

  lemma PutKeeps(c: Codec, r: Run, k: Key, d: Doc)
    requires Inv(c, r)
    ensures Inv(c, Mutated(r, Put(r.s, k, d), r.plain[k := d]))
  {
    hide EntriesOk, DelsOk, QuietOk, LogOk, PlacesOk, BatchYields, AllFit, Inverse, SinceSnapshot;
    PutEntries(c, r.s, OffsetsLog(r), r.plain, r.durable, k, d);
    EntryKeys(c, r);
    if !r.phase.Idle? {
      PutSinceSnapshot(r.s, r.plain, r.phase.st, r.phase.snap, k, d);
    }
  }

  lemma PutSinceSnapshot(s: Store, plain: map<Key, Doc>, st: FlushState, snap: map<Key, Doc>, k: Key, d: Doc)
    requires s.entries.Keys == plain.Keys && SinceSnapshot(s, plain, st, snap)
    ensures SinceSnapshot(Put(s, k, d), plain[k := d], st, snap)
  {
    hide LastOp, KeepLater;
  }

  lemma EntryKeys(c: Codec, r: Run)
    requires Inv(c, r)
    ensures r.s.entries.Keys == r.plain.Keys && FileOk(r.s)
  {
  }

  lemma RemoveQueue(s: Store, k: Key, j: Key)
    ensures Pending(Remove(s, k).pendingDels, j)
            <==> Pending(s.pendingDels, j) || (j == k && (s.sawFile || s.flushInProgress))
  {
    PendingSnoc(s.pendingDels, DelItem(k, s.dirtyGen + 1), j);
  }

  lemma {:induction false} RemoveEntries(c: Codec, s: Store, log: seq<Rec>, plain: map<Key, Doc>,
      durable: map<Key, Doc>, k: Key)
    requires AllFit(log) && EntriesOk(c, s, log, plain, durable) && k in plain
    ensures EntriesOk(c, Remove(s, k), log, plain - {k}, durable)
  {
    hide AllFit, DecodesAt, Pending;
    forall j: Key
      ensures Pending(Remove(s, k).pendingDels, j)
              <==> Pending(s.pendingDels, j) || (j == k && (s.sawFile || s.flushInProgress))
    {
      RemoveQueue(s, k, j);
    }
  }

  lemma {:induction false} RemoveDels(s: Store, plain: map<Key, Doc>, durable: map<Key, Doc>, k: Key)
    requires s.entries.Keys == plain.Keys && DelsOk(s, plain, durable) && QuietOk(s) && k in plain
    requires k in durable ==> s.sawFile || s.flushInProgress
    ensures DelsOk(Remove(s, k), plain - {k}, durable) && QuietOk(Remove(s, k))
  {
    hide Pending;
    forall j: Key
      ensures Pending(Remove(s, k).pendingDels, j)
              <==> Pending(s.pendingDels, j) || (j == k && (s.sawFile || s.flushInProgress))
    {
      RemoveQueue(s, k, j);
    }
  }

  lemma DurableInFile(c: Codec, r: Run, k: Key)
    requires Inv(c, r)
    ensures k in r.durable ==> r.s.sawFile || r.s.flushInProgress
  {
    hide EntriesOk, DelsOk, QuietOk, PhaseOk, Inverse;
    if r.s.log == [] { assert Contents(map[], r.s.log) == map[]; }
  }

  lemma RemoveKeeps(c: Codec, r: Run, k: Key)
    requires Inv(c, r) && k in r.plain
    ensures Inv(c, Mutated(r, Remove(r.s, k), r.plain - {k}))
  {
    hide EntriesOk, DelsOk, QuietOk, LogOk, PlacesOk, BatchYields, AllFit, Inverse, SinceSnapshot;
    EntryKeys(c, r);
    DurableInFile(c, r, k);
    RemoveEntries(c, r.s, OffsetsLog(r), r.plain, r.durable, k);
    RemoveDels(r.s, r.plain, r.durable, k);
    if !r.phase.Idle? {
      RemoveSinceSnapshot(r.s, r.plain, r.phase.st, r.phase.snap, k);
    }
  }

  lemma RemoveSinceSnapshot(s: Store, plain: map<Key, Doc>, st: FlushState, snap: map<Key, Doc>, k: Key)
    requires s.entries.Keys == plain.Keys && k in plain && SinceSnapshot(s, plain, st, snap)
    ensures SinceSnapshot(Remove(s, k), plain - {k}, st, snap)
  {
    hide LastOp, KeepLater;
    var d := DelItem(k, s.dirtyGen + 1);
    KeepLaterSnoc(s.pendingDels, d, st.gen);
    forall j: Key
      ensures Pending(KeepLater(s.pendingDels, st.gen) + [d], j)
              <==> Pending(KeepLater(s.pendingDels, st.gen), j) || j == k
    {
      PendingSnoc(KeepLater(s.pendingDels, st.gen), d, j);
    }
  }
}
