/** The store object itself: the fields the program updates in place, and the loops
    of a flush, each proved to compute the step FlushProtocol describes. */
module FileStore {
  import opened ByteCodec
  import opened Values
  import opened RecordLog
  import opened FlushProtocol

  class DocStore {
    const codec: Codec
    var entries: map<Key, Entry>
    var colls: set<Bytes>
    var pendingDels: seq<DelItem>
    var dirtyGen: nat
    var dirty: bool
    var sawFile: bool
    var compactForce: bool
    var flushInProgress: bool
    /** The bytes on disk; header and log say how they are made up. */
    var file: Bytes
    ghost var header: Bytes
    ghost var log: seq<Rec>

    ghost function State(): Store
      reads this
    {
      Store(entries, colls, pendingDels, dirtyGen, dirty, sawFile, compactForce, flushInProgress, header, log)
    }

    ghost predicate Valid()
      reads this
    {
      FileOk(State()) && file == File(codec, State())
    }

    constructor (c: Codec, hdr: Bytes)
      requires |hdr| == HEADER_SIZE
      ensures Valid() && codec == c
      ensures State() == Store(map[], {}, [], 0, true, false, false, false, hdr, [])
    {
      codec := c;
      entries, colls, pendingDels := map[], {}, [];
      dirtyGen, dirty, sawFile, compactForce, flushInProgress := 0, true, false, false, false;
      file, header, log := hdr, hdr, [];
    }

    method LoadEntry(k: Key) returns (r: Read)
      requires Valid() && k in entries
      modifies this`entries
      ensures Valid()
      ensures r == ReadEntry(codec, old(State()), old(entries[k]))
      ensures State() == old(State()).(entries := old(entries)[k := Loaded(codec, old(State()), old(entries[k]))])
    {
      var e := entries[k];
      if e.doc.Some? {
        assert entries == entries[k := e];
        return Found(e.doc.value);
      }
      if e.recLen <= 0 {
        assert entries == entries[k := e];
        return NotFound;
      }
      if e.recOff < 0 || e.recOff + e.recLen > |file| {
        assert entries == entries[k := e];
        return Unreadable;
      }
      var doc := DecodeDocRecord(codec, file[e.recOff..e.recOff + e.recLen]);
      if doc.None? {
        assert entries == entries[k := e];
        return Unreadable;
      }
      entries := entries[k := e.(doc := doc)];
      return Found(doc.value);
    }

    method MarkDirty()
      requires Valid()
      modifies this`dirty, this`dirtyGen
      ensures Valid() && State() == Touched(old(State()))
    {
      dirty := true;
      dirtyGen := dirtyGen + 1;
    }

    method StoreDoc(k: Key, d: Doc)
      requires Valid()
      modifies this`dirty, this`dirtyGen, this`entries, this`colls
      ensures Valid() && State() == Put(old(State()), k, d)
    {
      var e := if k in entries then entries[k] else Entry(None, -1, 0, false, 0);
      MarkDirty();
      entries := entries[k := e.(doc := Some(d), dirty := true, mutGen := dirtyGen)];
      colls := colls + {k.coll};
    }

    /** A deletion reads the document first, and does nothing when that fails. */
    method Delete(k: Key) returns (r: Read)
      requires Valid()
      modifies this`dirty, this`dirtyGen, this`entries, this`pendingDels
      ensures Valid()
      ensures r == if k in old(entries) then ReadEntry(codec, old(State()), old(entries[k])) else NotFound
      ensures State() == if k in old(entries) && !r.Unreadable? then Remove(old(State()), k) else old(State())
    {
      hide ReadEntry, Layout, AllFit, Loaded;
      if k !in entries {
        return NotFound;
      }
      ghost var s0 := State();
      UnreadableStays(codec, s0, k);
      r := LoadEntry(k);
      if r.Unreadable? {
        return;
      }
      assert entries - {k} == s0.entries - {k};
      MarkDirty();
      entries := entries - {k};
      if sawFile || flushInProgress {
        pendingDels := pendingDels + [DelItem(k, dirtyGen)];
      }
    }

    /** Stage the documents of the listed entries, loading cold ones on the way. */
    method Stage(ks: seq<Key>, full: bool) returns (docs: Option<seq<Op>>)
      requires Valid() && Lists(ks, entries.Keys)
      modifies this`entries
      ensures Valid() && docs == StageDocs(codec, old(State()), ks, full)
      ensures docs.Some? ==>
        State() == old(State()).(entries := StagedEntries(codec, old(State()), ks, full))
    {
      hide ReadEntry, AllFit, Layout, Loaded, Lists, StageDocs, StagedEntries;
      ListedOnce(ks, entries.Keys);
      ghost var s0 := State();
      var staged: seq<Op> := [];
      StageNone(codec, s0, full);
      for i := 0 to |ks|
        invariant Valid() && State() == s0.(entries := entries)
        invariant entries == StagedEntries(codec, s0, ks[..i], full)
        invariant StageDocs(codec, s0, ks[..i], full) == Some(staged)
      {
        var k := ks[i];
        assert ks[..i + 1] == ks[..i] + [k];
        StageStep(codec, s0, ks[..i], k, full);
        if full || entries[k].dirty {
          ReadIgnoresOthers(codec, s0, State(), entries[k]);
          var r := LoadEntry(k);
          if r.Unreadable? {
            StageStops(codec, s0, ks, i, full);
            return None;
          }
          if r.Found? {
            staged := staged + [DocOp(k, r.doc)];
          }
        }
      }
      assert ks[..|ks|] == ks;
      return Some(staged);
    }

    /** Encode the batch into one buffer and record where each record will lie. */
    method EncodeBatch(ops: seq<Op>, nonces: seq<Bytes>, start: nat) returns (buf: Bytes, places: seq<Placed>, ok: bool)
      requires |nonces| == |ops|
      ensures var rs := EncodeAll(codec, ops, nonces);
              && (ok <==> AllFit(rs))
              && (ok ==> buf == Layout(codec.crc, rs) && places == Place(codec.crc, rs, start))
    {
      hide Layout, Place, BuildRecord, EncodeOp;
      ghost var rs := EncodeAll(codec, ops, nonces);
      buf, places := [], [];
      var off := start;
      LayoutOfNone(codec.crc, start);
      for i := 0 to |ops|
        invariant AllFit(rs[..i])
        invariant buf == Layout(codec.crc, rs[..i]) && places == Place(codec.crc, rs[..i], start)
        invariant off == start + |buf|
      {
        var r := EncodeOp(codec, ops[i], nonces[i]);
        assert rs[i] == r;
        if !r.Fits() {
          return [], [], false;
        }
        LayoutSnoc(codec.crc, rs[..i], r);
        PlaceSnoc(codec.crc, rs[..i], r, start);
        assert rs[..i + 1] == rs[..i] + [r];
        var b := BuildRecord(codec.crc, r);
        places := places + [Placed(r, off, |b|)];
        buf := buf + b;
        off := off + |b|;
      }
      assert rs[..|ops|] == rs;
      return buf, places, true;
    }

    method Write(st: FlushState, nonces: seq<Bytes>, newHeader: Bytes) returns (ok: bool, places: seq<Placed>)
      requires Valid() && |nonces| == |st.ops| && |newHeader| == HEADER_SIZE
      modifies this`file, this`header, this`log, this`flushInProgress
      ensures Valid()
      ensures match WriteState(codec, old(State()), st, nonces, newHeader)
              case WriteFailed(s) => !ok && State() == s
              case Wrote(s, ps) => ok && State() == s && places == ps
    {
      hide Layout, Place;
      ghost var rs := EncodeAll(codec, st.ops, nonces);
      var buf: Bytes;
      buf, places, ok := EncodeBatch(st.ops, nonces, if st.full then HEADER_SIZE else |file|);
      if !ok {
        flushInProgress := false;
        return;
      }
      if st.full {
        file, header, log := newHeader + buf, newHeader, rs;
      } else {
        LayoutAppend(codec.crc, log, rs);
        assert file + buf == header + (Layout(codec.crc, log) + Layout(codec.crc, rs));
        file, log := file + buf, log + rs;
      }
    }

    method ClearFlags(flushed: seq<Key>, gen: nat)
      modifies this`entries
      ensures entries == map k | k in old(entries) :: Cleared(old(entries[k]), gen, k in flushed)
    {
      ghost var e0 := entries;
      assert entries == map k | k in e0 :: Cleared(e0[k], gen, k in flushed[..0]);
      for i := 0 to |flushed|
        invariant entries == map k | k in e0 :: Cleared(e0[k], gen, k in flushed[..i])
      {
        var k := flushed[i];
        assert flushed[..i + 1] == flushed[..i] + [k];
        if k in entries && entries[k].mutGen <= gen {
          entries := entries[k := entries[k].(dirty := false)];
        }
      }
      assert flushed[..|flushed|] == flushed;
    }

    method InstallOffsets(ops: seq<Op>, places: seq<Placed>)
      requires |places| == |ops|
      modifies this`entries
      ensures entries == map k | k in old(entries) :: Moved(old(entries[k]), OffsetFor(ops, places, k))
    {
      ghost var e0 := entries;
      assert entries == map k | k in e0 :: Moved(e0[k], OffsetFor(ops[..0], places[..0], k));
      for i := 0 to |ops|
        invariant entries == map k | k in e0 :: Moved(e0[k], OffsetFor(ops[..i], places[..i], k))
      {
        assert ops[..i + 1][..i] == ops[..i] && places[..i + 1][..i] == places[..i];
        if ops[i].DocOp? && ops[i].key in entries {
          var k := ops[i].key;
          entries := entries[k := entries[k].(recOff := places[i].off, recLen := places[i].len)];
        }
      }
      assert ops[..|ops|] == ops && places[..|ops|] == places;
    }

    method SettleEntries(st: FlushState, flushed: seq<Key>, places: seq<Placed>)
      requires |places| == |st.ops|
      requires forall k: Key :: k in flushed <==> OffsetFor(st.ops, places, k).Some?
      modifies this`entries
      ensures entries == map k | k in old(entries) ::
        Settled(old(entries[k]), st.gen, OffsetFor(st.ops, places, k))
    {
      hide OffsetFor, Cleared, Moved, Settled;
      ghost var e0 := entries;
      ClearFlags(flushed, st.gen);
      InstallOffsets(st.ops, places);
      SettledInTwo(e0, st.ops, places, st.gen, flushed);
    }

    method FilterDels(gen: nat)
      modifies this`pendingDels
      ensures pendingDels == KeepLater(old(pendingDels), gen)
    {
      var kept: seq<DelItem> := [];
      for i := 0 to |pendingDels|
        invariant pendingDels == old(pendingDels) && kept == KeepLater(pendingDels[..i], gen)
      {
        assert pendingDels[..i + 1][..i] == pendingDels[..i];
        if pendingDels[i].gen > gen {
          kept := kept + [pendingDels[i]];
        }
      }
      assert pendingDels[..|pendingDels|] == pendingDels;
      pendingDels := kept;
    }

    /** The bookkeeping after a successful write, in the order the program does it:
        clear dirty flags, install offsets, filter the deletion queue. */
    method Reconcile(st: FlushState, flushed: seq<Key>, places: seq<Placed>)
      requires Valid() && |places| == |st.ops|
      requires forall k: Key :: k in flushed <==> OffsetFor(st.ops, places, k).Some?
      modifies this`entries, this`pendingDels, this`dirty, this`sawFile, this`flushInProgress
      ensures Valid() && State() == ApplyFlushed(old(State()), st, places)
    {
      hide OffsetFor, KeepLater, Layout, AllFit, Cleared, Moved, Settled;
      flushInProgress, sawFile := false, true;
      SettleEntries(st, flushed, places);
      if st.full {
        pendingDels := [];
      } else if st.dels != [] {
        FilterDels(st.gen);
      }
      if dirtyGen == st.gen {
        dirty := false;
      }
    }
  }

  lemma UnreadableStays(c: Codec, s: Store, k: Key)
    requires FileOk(s) && k in s.entries
    ensures ReadEntry(c, s, s.entries[k]).Unreadable? ==> s.entries[k := Loaded(c, s, s.entries[k])] == s.entries
  {
    hide ReadEntry;
  }

  function StagedEntries(c: Codec, s: Store, done: seq<Key>, full: bool): map<Key, Entry>
    requires FileOk(s)
  {
    map k | k in s.entries ::
      if k in done && (full || s.entries[k].dirty) then Loaded(c, s, s.entries[k]) else s.entries[k]
  }

  /** Clearing flags and then installing offsets settles every entry. */
  lemma SettledInTwo(e0: map<Key, Entry>, ops: seq<Op>, places: seq<Placed>, gen: nat, flushed: seq<Key>)
    requires |places| == |ops|
    requires forall k: Key :: k in flushed <==> OffsetFor(ops, places, k).Some?
    ensures var e1 := map k | k in e0 :: Cleared(e0[k], gen, k in flushed);
            (map k | k in e1 :: Moved(e1[k], OffsetFor(ops, places, k)))
            == map k | k in e0 :: Settled(e0[k], gen, OffsetFor(ops, places, k))
  {
    hide OffsetFor;
  }

  lemma StageNone(c: Codec, s: Store, full: bool)
    requires FileOk(s)
    ensures StagedEntries(c, s, [], full) == s.entries && StageDocs(c, s, [], full) == Some([])
  {
    hide Loaded;
  }

  lemma {:induction false} StageStep(c: Codec, s: Store, done: seq<Key>, k: Key, full: bool)
    requires FileOk(s) && k in s.entries && k !in done && forall i | 0 <= i < |done| :: done[i] in s.entries
    requires StageDocs(c, s, done, full).Some?
    ensures var before := StagedEntries(c, s, done, full);
            var front := StageDocs(c, s, done, full).value;
            var wanted := full || s.entries[k].dirty;
            && k in before && before[k] == s.entries[k]
            && StagedEntries(c, s, done + [k], full)
               == (if wanted then before[k := Loaded(c, s, s.entries[k])] else before)
            && StageDocs(c, s, done + [k], full)
               == if !wanted then Some(front) else
                    match ReadEntry(c, s, s.entries[k])
                    case Found(d) => Some(front + [DocOp(k, d)])
                    case NotFound => Some(front)
                    case Unreadable => None
  {
    hide Loaded, ReadEntry;
    assert (done + [k])[..|done|] == done;
  }

  lemma ListedOnce(ks: seq<Key>, s: set<Key>)
    requires Lists(ks, s)
    ensures forall i | 0 <= i < |ks| :: ks[i] in s && ks[i] !in ks[..i]
    ensures forall k <- s :: k in ks
  {
  }

  function Cleared(e: Entry, gen: nat, written: bool): Entry
  {
    if written && e.mutGen <= gen then e.(dirty := false) else e
  }

  function Moved(e: Entry, at: Option<Placed>): Entry
  {
    match at
    case None => e
    case Some(p) => e.(recOff := p.off, recLen := p.len)
  }

  lemma ReadIgnoresOthers(c: Codec, s: Store, t: Store, e: Entry)
    requires FileOk(s) && t == s.(entries := t.entries)
    ensures FileOk(t) && ReadEntry(c, t, e) == ReadEntry(c, s, e) && Loaded(c, t, e) == Loaded(c, s, e)
  {
  }

  lemma {:induction false} StageStops(c: Codec, s: Store, ks: seq<Key>, i: nat, full: bool)
    requires FileOk(s) && i < |ks| && forall j | 0 <= j < |ks| :: ks[j] in s.entries
    requires StageDocs(c, s, ks[..i + 1], full) == None
    ensures StageDocs(c, s, ks, full) == None
  {
    hide ReadEntry;
    if i + 1 < |ks| {
      var front := ks[..|ks| - 1];
      assert front[..i + 1] == ks[..i + 1];
      StageStops(c, s, front, i, full);
    } else {
      assert ks[..i + 1] == ks;
    }
  }

  lemma LayoutOfNone(crc: Bytes -> U32, at: nat)
    ensures Layout(crc, []) == [] && Place(crc, [], at) == []
  {
  }

  lemma {:induction false} PlaceSnoc(crc: Bytes -> U32, rs: seq<Rec>, r: Rec, at: nat)
    requires AllFit(rs) && r.Fits()
    ensures Place(crc, rs + [r], at)
            == Place(crc, rs, at) + [Placed(r, at + |Layout(crc, rs)|, |BuildRecord(crc, r)|)]
  {
    hide Layout, BuildRecord;
    assert (rs + [r])[..|rs|] == rs;
  }
}
