/** The store's durability protocol on values: documents cached in memory over a
    record log, mutations that mark entries dirty with a generation, and a flush in
    three steps (snapshot, write, reconcile) between which mutations may run. */
module FlushProtocol {
  import opened ByteCodec
  import opened Values
  import opened RecordLog
  import opened TornTail

  /** A document slot. doc is None when the payload is cold and must be re-read. */
  datatype Entry = Entry(doc: Option<Doc>, recOff: int, recLen: int, dirty: bool, mutGen: nat)

  datatype DelItem = DelItem(key: Key, gen: nat)

  /** The file is header + Layout(log), or missing while log is empty. */
  datatype Store = Store(
    entries: map<Key, Entry>,
    colls: set<Bytes>,
    pendingDels: seq<DelItem>,
    dirtyGen: nat,
    dirty: bool,
    sawFile: bool,
    compactForce: bool,
    flushInProgress: bool,
    header: Bytes,
    log: seq<Rec>)

  predicate FileOk(s: Store) { |s.header| == HEADER_SIZE && AllFit(s.log) }

  function File(c: Codec, s: Store): Bytes
    requires FileOk(s)
  {
    s.header + Layout(c.crc, s.log)
  }

  /** Sealing and opening are inverse; this is what the cryptography promises. */
  ghost predicate Inverse(c: Codec)
  {
    && (forall nonce: Bytes, d: Doc ::
          c.openDoc(c.sealDoc(nonce, d).0, nonce, c.sealDoc(nonce, d).1) == Some(d))
    && (forall nonce: Bytes, m: set<Bytes> ::
          c.openMeta(c.sealMeta(nonce, m).0, nonce, c.sealMeta(nonce, m).1) == Some(m))
    && (forall nonce: Bytes, x: Bytes ::
          c.openIdx(c.sealIdx(nonce, x).0, nonce, c.sealIdx(nonce, x).1) == Some(x))
  }

  // ---------------------------------------------------------------- reading

  datatype Read = Found(doc: Doc) | NotFound | Unreadable

  function DecodeDocRecord(c: Codec, raw: Bytes): Option<Doc>
  {
    match ParseRecordAt(c.crc, raw, 0)
    case Whole(r, total) =>
      if r.typ != REC_DOC || total != |raw| then None else c.openDoc(r.flags, r.nonce, r.ct)
    case _ => None
  }

  function ReadEntry(c: Codec, s: Store, e: Entry): Read
    requires FileOk(s)
  {
    if e.doc.Some? then Found(e.doc.value)
    else if e.recLen <= 0 then NotFound
    else if e.recOff < 0 || e.recOff + e.recLen > |File(c, s)| then Unreadable
    else match DecodeDocRecord(c, File(c, s)[e.recOff..e.recOff + e.recLen])
         case Some(d) => Found(d)
         case None => Unreadable
  }

  /** Reading makes a cold entry resident. */
  function Loaded(c: Codec, s: Store, e: Entry): Entry
    requires FileOk(s)
  {
    match ReadEntry(c, s, e)
    case Found(d) => e.(doc := Some(d))
    case _ => e
  }

  // ---------------------------------------------------------------- mutations

  function Touched(s: Store): Store { s.(dirty := true, dirtyGen := s.dirtyGen + 1) }

  /** Insert, upsert and update all end by storing a new document in the slot. */
  function Put(s: Store, k: Key, d: Doc): Store
  {
    var t := Touched(s);
    var e := if k in s.entries then s.entries[k] else Entry(None, -1, 0, false, 0);
    t.(entries := s.entries[k := e.(doc := Some(d), dirty := true, mutGen := t.dirtyGen)],
       colls := s.colls + {k.coll})
  }

  function Remove(s: Store, k: Key): Store
  {
    var t := Touched(s);
    t.(entries := s.entries - {k},
       pendingDels := if s.sawFile || s.flushInProgress
                      then s.pendingDels + [DelItem(k, t.dirtyGen)] else s.pendingDels)
  }

  // ---------------------------------------------------------------- the records of a flush

  datatype Op =
    | DelOp(key: Key)
    | DocOp(key: Key, doc: Doc)
    | MetaOp(colls: set<Bytes>)
    | IdxOp(coll: Bytes, payload: Bytes)
    | CommitOp

  function EncodeOp(c: Codec, op: Op, nonce: Bytes): Rec
  {
    match op
    case DelOp(k) => Rec(REC_DEL, 0, EncodeIDBlob(k.coll, k.id), nonce, [])
    case DocOp(k, d) =>
      Rec(REC_DOC, c.sealDoc(nonce, d).0, EncodeIDBlob(k.coll, k.id), nonce, c.sealDoc(nonce, d).1)
    case MetaOp(m) => Rec(REC_META, c.sealMeta(nonce, m).0, [], nonce, c.sealMeta(nonce, m).1)
    case IdxOp(coll, x) =>
      Rec(REC_IDX, c.sealIdx(nonce, x).0, EncodeIDBlob(coll, []), nonce, c.sealIdx(nonce, x).1)
    case CommitOp => Rec(REC_COMMIT, 0, [], nonce, [])
  }

  function EncodeAll(c: Codec, ops: seq<Op>, nonces: seq<Bytes>): (rs: seq<Rec>)
    requires |nonces| == |ops|
    ensures |rs| == |ops|
  {
    seq(|ops|, i requires 0 <= i < |ops| => EncodeOp(c, ops[i], nonces[i]))
  }

  /** The documents a snapshot stages, for the listed keys; None is a read error. */
  function StageDocs(c: Codec, s: Store, ks: seq<Key>, full: bool): Option<seq<Op>>
    requires FileOk(s) && forall i | 0 <= i < |ks| :: ks[i] in s.entries
  {
    if ks == [] then Some([]) else
      var k := ks[|ks| - 1];
      match StageDocs(c, s, ks[..|ks| - 1], full)
      case None => None
      case Some(front) =>
        if !full && !s.entries[k].dirty then Some(front) else
          match ReadEntry(c, s, s.entries[k])
          case Found(d) => Some(front + [DocOp(k, d)])
          case NotFound => Some(front)
          case Unreadable => None
  }

  function DelOps(dels: seq<DelItem>): seq<Op>
  {
    seq(|dels|, i requires 0 <= i < |dels| => DelOp(dels[i].key))
  }

  /** The durable order: deletions, documents, schema, indexes, and the COMMIT. */
  function OrderOps(dels: seq<DelItem>, docs: seq<Op>, colls: set<Bytes>, idx: seq<Op>): seq<Op>
  {
    DelOps(dels) + docs + [MetaOp(colls)] + idx + [CommitOp]
  }

  datatype FlushState = FlushState(full: bool, gen: nat, dels: seq<DelItem>, ops: seq<Op>)

  datatype Prepared = Nothing | ReadError(s: Store) | Ready(s: Store, st: FlushState)

  predicate Lists(ks: seq<Key>, s: set<Key>)
  {
    && (forall i | 0 <= i < |ks| :: ks[i] in s)
    && (forall k <- s :: k in ks)
    && (forall i, j | 0 <= i < j < |ks| :: ks[i] != ks[j])
  }

  predicate AllIdx(idx: seq<Op>) { forall i | 0 <= i < |idx| :: idx[i].IdxOp? }

  /** Step one, under the lock. ks lists the entries; idx are the serialized indexes. */
  function PrepareFlush(c: Codec, s: Store, ks: seq<Key>, idx: seq<Op>): Prepared
    requires FileOk(s) && Lists(ks, s.entries.Keys)
  {
    if !s.dirty && !s.compactForce then Nothing else
      var full := !s.sawFile || s.compactForce;
      var dels := if full then [] else s.pendingDels;
      match StageDocs(c, s, ks, full)
      case None => ReadError(s.(compactForce := false))
      case Some(docs) =>
        var entries := map k | k in s.entries ::
          if full || s.entries[k].dirty then Loaded(c, s, s.entries[k]) else s.entries[k];
        Ready(s.(entries := entries, flushInProgress := true, compactForce := false),
              FlushState(full, s.dirtyGen, dels, OrderOps(dels, docs, s.colls, idx)))
  }

  datatype Outcome = WriteFailed(s: Store) | Wrote(s: Store, places: seq<Placed>)

  /** Step two, outside the lock: append, or replace the whole file atomically. */
  function WriteState(c: Codec, s: Store, st: FlushState, nonces: seq<Bytes>, header: Bytes): Outcome
    requires |nonces| == |st.ops| && FileOk(s) && |header| == HEADER_SIZE
  {
    var rs := EncodeAll(c, st.ops, nonces);
    if !AllFit(rs) then WriteFailed(s.(flushInProgress := false))
    else if st.full then Wrote(s.(header := header, log := rs), Place(c.crc, rs, HEADER_SIZE))
    else Wrote(s.(log := s.log + rs), Place(c.crc, rs, HEADER_SIZE + |Layout(c.crc, s.log)|))
  }

  /** Where the flush put a key's document, if it wrote one. */
  function OffsetFor(ops: seq<Op>, places: seq<Placed>, k: Key): Option<Placed>
    requires |ops| == |places|
  {
    if ops == [] then None else
      var n := |ops| - 1;
      if ops[n].DocOp? && ops[n].key == k then Some(places[n])
      else OffsetFor(ops[..n], places[..n], k)
  }

  function Settled(e: Entry, gen: nat, at: Option<Placed>): Entry
  {
    match at
    case None => e
    case Some(p) => e.(dirty := e.dirty && e.mutGen > gen, recOff := p.off, recLen := p.len)
  }

  function KeepLater(dels: seq<DelItem>, gen: nat): seq<DelItem>
  {
    if dels == [] then [] else
      var d := dels[|dels| - 1];
      KeepLater(dels[..|dels| - 1], gen) + (if d.gen > gen then [d] else [])
  }

  /** Step three, under the lock again. */
  function ApplyFlushed(s: Store, st: FlushState, places: seq<Placed>): Store
    requires |places| == |st.ops|
  {
    s.(flushInProgress := false,
       sawFile := true,
       entries := map k | k in s.entries :: Settled(s.entries[k], st.gen, OffsetFor(st.ops, places, k)),
       pendingDels := if st.full then []
                      else if st.dels == [] then s.pendingDels
                      else KeepLater(s.pendingDels, st.gen),
       dirty := if s.dirtyGen == st.gen then false else s.dirty)
  }

  // ---------------------------------------------------------------- what a batch does

  datatype OpAction = Untouched | Stores(doc: Doc) | Drops

  function LastOp(ops: seq<Op>, k: Key): OpAction
  {
    if ops == [] then Untouched else
      match ops[|ops| - 1]
      case DocOp(key, d) => if key == k then Stores(d) else LastOp(ops[..|ops| - 1], k)
      case DelOp(key) => if key == k then Drops else LastOp(ops[..|ops| - 1], k)
      case _ => LastOp(ops[..|ops| - 1], k)
  }

  lemma {:induction false} LastOpAppend(a: seq<Op>, b: seq<Op>, k: Key)
    ensures LastOp(a + b, k) == if LastOp(b, k) == Untouched then LastOp(a, k) else LastOp(b, k)
  {
    if b == [] {
      assert a + b == a;
    } else {
      assert (a + b)[..|a + b| - 1] == a + b[..|b| - 1];
      LastOpAppend(a, b[..|b| - 1], k);
    }
  }

  predicate Pending(dels: seq<DelItem>, k: Key) { exists i | 0 <= i < |dels| :: dels[i].key == k }

  lemma {:induction false} LastOpOfDels(dels: seq<DelItem>, k: Key)
    ensures LastOp(DelOps(dels), k) == if Pending(dels, k) then Drops else Untouched
  {
    if dels != [] {
      var n := |dels| - 1;
      LastOpOfDels(dels[..n], k);
      assert DelOps(dels)[..n] == DelOps(dels[..n]);
      if Pending(dels[..n], k) {
        var i :| 0 <= i < n && dels[..n][i].key == k;
        assert dels[i].key == k;
      }
      if Pending(dels, k) && dels[n].key != k {
        var i :| 0 <= i < |dels| && dels[i].key == k;
        assert dels[..n][i].key == k;
      }
    }
  }

  lemma {:induction false} LastOpOfIdx(idx: seq<Op>, k: Key)
    requires AllIdx(idx)
    ensures LastOp(idx, k) == Untouched
  {
    if idx != [] { LastOpOfIdx(idx[..|idx| - 1], k); }
  }

  lemma LastOpOrdered(dels: seq<DelItem>, docs: seq<Op>, colls: set<Bytes>, idx: seq<Op>, k: Key)
    requires AllIdx(idx)
    ensures LastOp(OrderOps(dels, docs, colls, idx), k)
            == if LastOp(docs, k) != Untouched then LastOp(docs, k)
               else if Pending(dels, k) then Drops else Untouched
  {
    LastOpAppend(DelOps(dels), docs, k);
    LastOpAppend(DelOps(dels) + docs, [MetaOp(colls)], k);
    LastOpAppend(DelOps(dels) + docs + [MetaOp(colls)], idx, k);
    LastOpAppend(DelOps(dels) + docs + [MetaOp(colls)] + idx, [CommitOp], k);
    LastOpOfDels(dels, k);
    LastOpOfIdx(idx, k);
    assert [CommitOp][..0] == [] && [MetaOp(colls)][..0] == [];
    assert LastOp([CommitOp], k) == Untouched && LastOp([MetaOp(colls)], k) == Untouched;
  }

  /** Encoded records act on a key as the operations they encode. */
  lemma {:induction false} ActionOfEncoded(c: Codec, ops: seq<Op>, nonces: seq<Bytes>, k: Key)
    requires |nonces| == |ops| && AllFit(EncodeAll(c, ops, nonces)) && Inverse(c)
    ensures match LastOp(ops, k)
            case Untouched => LastAction(EncodeAll(c, ops, nonces), k) == Leaves
            case Drops => LastAction(EncodeAll(c, ops, nonces), k) == Clears
            case Stores(d) =>
              var a := LastAction(EncodeAll(c, ops, nonces), k);
              a.Sets? && c.openDoc(a.rec.flags, a.rec.nonce, a.rec.ct) == Some(d)
  {
    hide DecodeIDBlob, EncodeIDBlob;
    if ops != [] {
      var n := |ops| - 1;
      var rs := EncodeAll(c, ops, nonces);
      assert EncodeAll(c, ops[..n], nonces[..n]) == rs[..n];
      ActionOfEncoded(c, ops[..n], nonces[..n], k);
      if ops[n].DocOp? || ops[n].DelOp? {
        assert rs[n] == EncodeOp(c, ops[n], nonces[n]) && rs[n].Fits();
        FittingBlob(ops[n].key);
      }
    }
  }

  lemma FittingBlob(k: Key)
    requires |EncodeIDBlob(k.coll, k.id)| <= 0xffff
    ensures DecodeIDBlob(EncodeIDBlob(k.coll, k.id)) == Some(k)
  {
    IDBlobRoundTrip(k.coll, k.id);
  }

  /** Key by key, what a log holds after these operations are appended to it. */
  lemma BatchOnDisk(c: Codec, base: seq<Rec>, ops: seq<Op>, nonces: seq<Bytes>, k: Key)
    requires |nonces| == |ops| && AllFit(EncodeAll(c, ops, nonces)) && Inverse(c)
    ensures var rs := EncodeAll(c, ops, nonces);
            match LastOp(ops, k)
            case Untouched => OnDisk(c, base + rs, k) == OnDisk(c, base, k)
                              && (k in Contents(map[], base + rs) <==> k in Contents(map[], base))
            case Drops => k !in Contents(map[], base + rs)
            case Stores(d) => k in Contents(map[], base + rs) && OnDisk(c, base + rs, k) == Some(d)
  {
    var rs := EncodeAll(c, ops, nonces);
    ActionOfEncoded(c, ops, nonces, k);
    ContentsAppend(map[], base, rs);
    ContentsByAction(Contents(map[], base), rs, k);
  }

  // ---------------------------------------------------------------- reading by offset

  /** A record of the log lies exactly at this place and holds this document. */
  ghost predicate DecodesAt(c: Codec, log: seq<Rec>, off: int, len: int, d: Doc)
    requires AllFit(log)
  {
    exists i | 0 <= i < |log| :: RecordIs(c, log, i, off, len, d)
  }

  predicate RecordIs(c: Codec, log: seq<Rec>, i: nat, off: int, len: int, d: Doc)
    requires AllFit(log) && i < |log|
  {
    && Place(c.crc, log, HEADER_SIZE)[i].off == off && Place(c.crc, log, HEADER_SIZE)[i].len == len
    && log[i].typ == REC_DOC && c.openDoc(log[i].flags, log[i].nonce, log[i].ct) == Some(d)
  }
}
