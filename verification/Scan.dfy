/** The scan and normal open of a version-2 file as the program does them (two
    passes over the records, two flag maps under joined keys, every version of a
    live document kept), proved to recover exactly what RecordLog.Recover says. */
module Scan {
  import opened ByteCodec
  import opened RecordLog

  /** The text key the scan indexes its maps with: collection, NUL, id. */
  function Join(k: Key): Bytes { k.coll + [0] + k.id }

  function FirstNul(s: Bytes): nat
  {
    if s == [] || s[0] == 0 then 0 else 1 + FirstNul(s[1..])
  }

  lemma {:induction false} FirstNulAfter(coll: Bytes, rest: Bytes)
    requires 0 !in coll
    ensures FirstNul(coll + [0] + rest) == |coll|
  {
    if coll != [] {
      FirstNulAfter(coll[1..], rest);
      assert (coll + [0] + rest)[1..] == coll[1..] + [0] + rest;
    }
  }

  /** Joined keys are distinct as long as collection names hold no NUL. */
  lemma JoinInjective(a: Key, b: Key)
    requires 0 !in a.coll && 0 !in b.coll && Join(a) == Join(b)
    ensures a == b
  {
    FirstNulAfter(a.coll, a.id);
    FirstNulAfter(b.coll, b.id);
    assert a.coll == Join(a)[..|a.coll|] && b.coll == Join(b)[..|b.coll|];
    assert a.id == Join(a)[|a.coll| + 1..] && b.id == Join(b)[|b.coll| + 1..];
  }

  predicate Keyed(p: Placed)
  {
    p.rec.typ in {REC_DOC, REC_DEL} && DecodeIDBlob(p.rec.idBlob).Some?
  }

  function KeyOf(p: Placed): Key
    requires DecodeIDBlob(p.rec.idBlob).Some?
  {
    DecodeIDBlob(p.rec.idBlob).value
  }

  predicate NulFree(ps: seq<Placed>)
  {
    forall i | 0 <= i < |ps| :: Keyed(ps[i]) ==> 0 !in KeyOf(ps[i]).coll
  }

  predicate AllKeyed(ps: seq<Placed>)
  {
    forall i | 0 <= i < |ps| :: ps[i].rec.typ in {REC_DOC, REC_DEL} ==> Keyed(ps[i])
  }

  predicate AllDocs(ds: seq<Placed>)
  {
    forall i | 0 <= i < |ds| :: ds[i].rec.typ == REC_DOC && Keyed(ds[i])
  }

  // ---------------------------------------------------------------- what the passes compute

  function DocsOf(ps: seq<Placed>): (ds: seq<Placed>)
    requires AllKeyed(ps)
    ensures AllDocs(ds)
  {
    if ps == [] then [] else
      var p := ps[|ps| - 1];
      DocsOf(ps[..|ps| - 1]) + (if p.rec.typ == REC_DOC then [p] else [])
  }

  /** Whether the last DOC or DEL under this joined key is a DOC. */
  predicate AliveAfter(ps: seq<Placed>, j: Bytes)
  {
    if ps == [] then false else
      var p := ps[|ps| - 1];
      if Keyed(p) && Join(KeyOf(p)) == j then p.rec.typ == REC_DOC
      else AliveAfter(ps[..|ps| - 1], j)
  }

  function Living(ds: seq<Placed>, ps: seq<Placed>): (live: seq<Placed>)
    requires AllDocs(ds)
    ensures AllDocs(live)
  {
    if ds == [] then [] else
      var d := ds[|ds| - 1];
      Living(ds[..|ds| - 1], ps) + (if AliveAfter(ps, Join(KeyOf(d))) then [d] else [])
  }

  /** Later documents of the same key overwrite earlier ones. */
  function Install(ds: seq<Placed>): map<Key, Placed>
    requires AllDocs(ds)
  {
    if ds == [] then map[] else
      Install(ds[..|ds| - 1])[KeyOf(ds[|ds| - 1]) := ds[|ds| - 1]]
  }

  function LastDoc(ps: seq<Placed>, k: Key): Option<Placed>
  {
    if ps == [] then None else
      var p := ps[|ps| - 1];
      if p.rec.typ == REC_DOC && Keyed(p) && KeyOf(p) == k then Some(p)
      else LastDoc(ps[..|ps| - 1], k)
  }

  lemma LivingSnoc(ds: seq<Placed>, d: Placed, all: seq<Placed>)
    requires AllDocs(ds + [d])
    ensures AllDocs(ds)
    ensures Install(Living(ds + [d], all))
            == if AliveAfter(all, Join(KeyOf(d))) then Install(Living(ds, all))[KeyOf(d) := d]
               else Install(Living(ds, all))
  {
    hide DecodeIDBlob, Join, AliveAfter;
    assert (ds + [d])[..|ds|] == ds;
    var before := Living(ds, all);
    assert (before + [d])[..|before|] == before;
    assert before + [] == before;
  }

  lemma {:induction false} InstallLiving(ps: seq<Placed>, all: seq<Placed>, k: Key)
    requires AllKeyed(ps)
    ensures Get(Install(Living(DocsOf(ps), all)), k)
            == if AliveAfter(all, Join(k)) then LastDoc(ps, k) else None
  {
    hide DecodeIDBlob, Join, AliveAfter;
    if ps == [] {
      assert DocsOf(ps) == [] && Living(DocsOf(ps), all) == [];
    } else {
      hide Living, Install;
      var front, p := ps[..|ps| - 1], ps[|ps| - 1];
      InstallLiving(front, all, k);
      if p.rec.typ == REC_DOC {
        LivingSnoc(DocsOf(front), p, all);
      } else {
        assert DocsOf(ps) == DocsOf(front);
      }
    }
  }

  /** Whether the last DOC or DEL of this key, under its own name, is a DOC. */
  predicate LivesAtEnd(ps: seq<Placed>, k: Key)
  {
    if ps == [] then false else
      var p := ps[|ps| - 1];
      if Keyed(p) && KeyOf(p) == k then p.rec.typ == REC_DOC else LivesAtEnd(ps[..|ps| - 1], k)
  }

  lemma {:induction false} ReplayIsLastDoc(ps: seq<Placed>, k: Key)
    requires AllKeyed(ps)
    ensures Get(Replay(map[], ps), k) == if LivesAtEnd(ps, k) then LastDoc(ps, k) else None
    ensures LivesAtEnd(ps, k) ==> LastDoc(ps, k).Some?
  {
    hide DecodeIDBlob;
    if ps != [] { ReplayIsLastDoc(ps[..|ps| - 1], k); }
  }

  /** For every key with a document, the flags under its joined text say what its own
      records say. */
  ghost predicate FlagsTell(ps: seq<Placed>)
  {
    forall k: Key | LastDoc(ps, k).Some? :: AliveAfter(ps, Join(k)) <==> LivesAtEnd(ps, k)
  }

  /** Keeping every version of each key that is alive at the end, and letting later
      versions overwrite earlier ones, is the same as replaying the log in order
      exactly when the joined texts tell the keys apart. */
  lemma InstallIsReplay(ps: seq<Placed>)
    requires AllKeyed(ps)
    ensures Install(Living(DocsOf(ps), ps)) == Replay(map[], ps) <==> FlagsTell(ps)
  {
    hide DecodeIDBlob, Living, DocsOf, Install, Replay, AliveAfter, LivesAtEnd, LastDoc, Join;
    var a, b := Install(Living(DocsOf(ps), ps)), Replay(map[], ps);
    forall k: Key
      ensures Get(a, k) == if AliveAfter(ps, Join(k)) then LastDoc(ps, k) else None
      ensures Get(b, k) == if LivesAtEnd(ps, k) then LastDoc(ps, k) else None
    {
      InstallLiving(ps, ps, k);
      ReplayIsLastDoc(ps, k);
    }
    if FlagsTell(ps) {
      forall k: Key
        ensures k in a <==> k in b
        ensures k in a ==> a[k] == b[k]
      {
        assert Get(a, k) == Get(b, k);
      }
      assert a == b;
    }
    if a == b {
      forall k: Key | LastDoc(ps, k).Some?
        ensures AliveAfter(ps, Join(k)) <==> LivesAtEnd(ps, k)
      {
        assert Get(a, k) == Get(b, k);
      }
    }
  }

  lemma {:induction false} AliveIsLives(ps: seq<Placed>, k: Key)
    requires forall i | 0 <= i < |ps| :: Keyed(ps[i]) && Join(KeyOf(ps[i])) == Join(k) ==> KeyOf(ps[i]) == k
    ensures AliveAfter(ps, Join(k)) <==> LivesAtEnd(ps, k)
  {
    hide DecodeIDBlob, Join;
    if ps != [] {
      var front := ps[..|ps| - 1];
      assert forall i | 0 <= i < |front| :: front[i] == ps[i];
      AliveIsLives(front, k);
    }
  }

  lemma {:induction false} DocHasRecord(ps: seq<Placed>, k: Key) returns (i: nat)
    requires LastDoc(ps, k).Some?
    ensures i < |ps| && Keyed(ps[i]) && KeyOf(ps[i]) == k
  {
    hide DecodeIDBlob;
    var n := |ps| - 1;
    if ps[n].rec.typ == REC_DOC && Keyed(ps[n]) && KeyOf(ps[n]) == k {
      i := n;
    } else {
      i := DocHasRecord(ps[..n], k);
    }
  }

  /** They do as long as no collection name holds a NUL. */
  lemma NulFreeTells(ps: seq<Placed>)
    requires NulFree(ps)
    ensures FlagsTell(ps)
  {
    hide DecodeIDBlob, Join, LastDoc, AliveAfter, LivesAtEnd;
    forall k: Key | LastDoc(ps, k).Some?
      ensures AliveAfter(ps, Join(k)) <==> LivesAtEnd(ps, k)
    {
      var at := DocHasRecord(ps, k);
      forall i | 0 <= i < |ps| && Keyed(ps[i]) && Join(KeyOf(ps[i])) == Join(k)
        ensures KeyOf(ps[i]) == k
      {
        JoinInjective(KeyOf(ps[i]), k);
      }
      AliveIsLives(ps, k);
    }
  }

  // ---------------------------------------------------------------- the passes

  predicate Contiguous(ps: seq<Placed>, end: nat)
  {
    && (forall i | 0 <= i < |ps| :: ps[i].len > 0 && ps[i].off + ps[i].len <= end)
    && (forall i, j | 0 <= i < j < |ps| :: ps[i].off + ps[i].len <= ps[j].off)
  }

  /** Where the last COMMIT ends, or -1 when there is none. */
  function CommitEnd(ps: seq<Placed>): int
  {
    var n := CommitCount(ps);
    if n == 0 then -1 else ps[n - 1].off + ps[n - 1].len
  }

  lemma ContiguousNil(end: nat)
    ensures Contiguous([], end)
  {
  }

  lemma ContiguousSnoc(ps: seq<Placed>, p: Placed)
    requires Contiguous(ps, p.off) && p.len > 0
    ensures Contiguous(ps + [p], p.off + p.len)
  {
  }

  lemma ContiguousWithin(ps: seq<Placed>, end: nat, size: nat)
    requires Contiguous(ps, end) && (ps != [] ==> end <= size)
    ensures Contiguous(ps, size)
  {
  }

  lemma WalkStops(crc: Bytes -> U32, data: Bytes, off: nat)
    ensures off >= |data| ==> Walk(crc, data, off) == WalkResult([], AtEnd)
    ensures off < |data| && ParseRecordAt(crc, data, off).Torn? ==>
              Walk(crc, data, off) == WalkResult([], TornAt(off))
    ensures off < |data| && ParseRecordAt(crc, data, off).Corrupt? ==>
              Walk(crc, data, off) == WalkResult([], BadRecord)
  {
    hide ParseRecordAt;
  }

  datatype FirstPass = PassError | Pass(recs: seq<Placed>, lastCommit: int, truncated: nat)

  method CollectRecords(crc: Bytes -> U32, data: Bytes) returns (r: FirstPass)
    ensures var w := Walk(crc, data, HEADER_SIZE);
            && (r.PassError? <==> w.end.BadRecord? || w.end == TornAt(HEADER_SIZE))
            && (r.Pass? ==> && r.recs == w.recs && r.lastCommit == CommitEnd(w.recs)
                            && Contiguous(w.recs, |data|)
                            && r.truncated == if w.end.TornAt? then w.end.off else 0)
  {
    hide ParseRecordAt, CommitEnd, Contiguous, Walk;
    var off, lastCommit, recs := HEADER_SIZE, -1, [];
    ghost var w := Walk(crc, data, HEADER_SIZE);
    assert CommitEnd(recs) == -1 by { CommitEndOfNil(); }
    assert w.recs == recs + w.recs;
    assert Contiguous(recs, off) by { ContiguousNil(off); }
    while off < |data|
      invariant off >= HEADER_SIZE && (off > HEADER_SIZE <==> recs != [])
      invariant recs != [] ==> off <= |data|
      invariant w.recs == recs + Walk(crc, data, off).recs && w.end == Walk(crc, data, off).end
      invariant Contiguous(recs, off)
      invariant lastCommit == CommitEnd(recs)
      decreases |data| - off
    {
      match ParseRecordAt(crc, data, off)
      case Torn =>
        WalkStops(crc, data, off);
        if lastCommit < 0 && off == HEADER_SIZE {
          return PassError;
        }
        ContiguousWithin(recs, off, |data|);
        return Pass(recs, lastCommit, off);
      case Corrupt =>
        WalkStops(crc, data, off);
        return PassError;
      case Whole(rec, total) =>
        var p := Placed(rec, off, total);
        WalkStep(crc, data, recs, off);
        CommitEndOfSnoc(recs, p);
        ContiguousSnoc(recs, p);
        recs := recs + [p];
        if rec.typ == REC_COMMIT {
          lastCommit := off + total;
        }
        off := off + total;
    }
    WalkStops(crc, data, off);
    ContiguousWithin(recs, off, |data|);
    return Pass(recs, lastCommit, 0);
  }

  lemma {:induction false} CommitEndSplits(ps: seq<Placed>, end: nat, i: nat)
    requires Contiguous(ps, end) && i < |ps|
    ensures ps[i].off + ps[i].len <= CommitEnd(ps) <==> i < CommitCount(ps)
  {
    hide CommitCount;
    var n := CommitCount(ps);
    if n > 0 && i != n - 1 {
      assert if i < n - 1 then ps[i].off + ps[i].len <= ps[n - 1].off
             else ps[n - 1].off + ps[n - 1].len <= ps[i].off;
    }
  }

  lemma CommitEndOfNil()
    ensures CommitEnd([]) == -1
  {
  }

  lemma {:induction false} CommitEndOfSnoc(ps: seq<Placed>, p: Placed)
    ensures CommitEnd(ps + [p]) == if p.rec.typ == REC_COMMIT then p.off + p.len else CommitEnd(ps)
  {
    assert (ps + [p])[..|ps|] == ps;
  }

  lemma {:induction false} WalkStep(crc: Bytes -> U32, data: Bytes, recs: seq<Placed>, off: nat)
    requires off < |data| && ParseRecordAt(crc, data, off).Whole?
    ensures var q := ParseRecordAt(crc, data, off);
            var next := Walk(crc, data, off + q.total);
            && recs + Walk(crc, data, off).recs == (recs + [Placed(q.rec, off, q.total)]) + next.recs
            && Walk(crc, data, off).end == next.end
  {
    hide ParseRecordAt;
  }

  /** The bit a writer sets on a document it found out of step with its indexes. */
  predicate IsSuspect(p: Placed) { p.rec.flags / 2 % 2 == 1 }

  /** It is the second lowest. */
  lemma SuspectBit(p: Placed)
    ensures IsSuspect(p) <==> p.rec.flags % 4 == 2 || p.rec.flags % 4 == 3
  {
  }

  /** A serialized index, with the collection it belongs to. */
  datatype IdxText = IdxText(coll: Bytes, text: Bytes)

  function TextOf(c: Codec, r: Rec): Option<IdxText>
  {
    if r.typ != REC_IDX then None else
      match (DecodeIDBlob(r.idBlob), c.openIdx(r.flags, r.nonce, r.ct))
      case (Some(k), Some(text)) => Some(IdxText(k.coll, text))
      case _ => None
  }

  function IdxTexts(c: Codec, ps: seq<Placed>): seq<IdxText>
  {
    if ps == [] then [] else
      var t := TextOf(c, ps[|ps| - 1].rec);
      IdxTexts(c, ps[..|ps| - 1]) + (if t.Some? then [t.value] else [])
  }

  datatype SecondPass =
    | ApplyError
    | Applied(meta: Option<set<Bytes>>, docs: seq<Placed>, idx: seq<IdxText>, suspect: bool)

  method ApplyRecords(c: Codec, recs: seq<Placed>, lastCommit: int, ghost end: nat) returns (r: SecondPass)
    requires Contiguous(recs, end) && lastCommit == CommitEnd(recs)
    ensures var ps := recs[..CommitCount(recs)];
            && (r.ApplyError? <==> !Decodable(c, ps))
            && (r.Applied? ==> && AllKeyed(ps) && r.meta == LastMeta(c, ps) && r.docs == DocsOf(ps)
                               && r.idx == IdxTexts(c, ps)
                               && (r.suspect <==> exists i | 0 <= i < |ps| :: IsSuspect(ps[i])))
  {
    hide DecodeIDBlob, CommitEnd, CommitCount, Contiguous, IsSuspect;
    var docs: seq<Placed> := [];
    var idx: seq<IdxText> := [];
    var meta: Option<set<Bytes>> := None;
    var suspect := false;
    var i := 0;
    ghost var n := CommitCount(recs);
    while i < |recs| && recs[i].off + recs[i].len <= lastCommit
      invariant i <= n
      invariant Decodable(c, recs[..i]) && AllKeyed(recs[..i])
      invariant docs == DocsOf(recs[..i]) && idx == IdxTexts(c, recs[..i])
      invariant meta == LastMeta(c, recs[..i])
      invariant suspect <==> exists j | 0 <= j < i :: IsSuspect(recs[j])
    {
      CommitEndSplits(recs, end, i);
      var p := recs[i];
      assert recs[..i + 1][..i] == recs[..i] && recs[..i + 1][i] == p;
      assert recs[..n][i] == p;
      if IsSuspect(p) {
        suspect := true;
      }
      if p.rec.typ == REC_IDX && c.openIdx(p.rec.flags, p.rec.nonce, p.rec.ct).None? {
        return ApplyError;
      }
      if p.rec.typ in {REC_DOC, REC_DEL, REC_IDX} && DecodeIDBlob(p.rec.idBlob).None? {
        return ApplyError;
      }
      if p.rec.typ == REC_META {
        var m := c.openMeta(p.rec.flags, p.rec.nonce, p.rec.ct);
        if m.None? {
          return ApplyError;
        }
        meta := m;
      } else if p.rec.typ == REC_DOC {
        docs := docs + [p];
      } else if p.rec.typ == REC_IDX {
        idx := idx + [TextOf(c, p.rec).value];
      }
      i := i + 1;
    }
    if i < |recs| { CommitEndSplits(recs, end, i); }
    assert recs[..n] == recs[..i];
    return Applied(meta, docs, idx, suspect);
  }

  /** The third pass: alive and deleted flags per joined key, in log order. */
  method FlagKeys(recs: seq<Placed>, lastCommit: int, ghost end: nat)
    returns (alive: map<Bytes, bool>, deleted: map<Bytes, bool>)
    requires Contiguous(recs, end) && lastCommit == CommitEnd(recs)
    requires AllKeyed(recs[..CommitCount(recs)])
    ensures alive.Keys == deleted.Keys
    ensures forall j: Bytes ::
      (j in alive && alive[j] && !deleted[j]) <==> AliveAfter(recs[..CommitCount(recs)], j)
  {
    hide DecodeIDBlob, Join, CommitEnd, CommitCount, Contiguous;
    alive, deleted := map[], map[];
    var i := 0;
    ghost var n := CommitCount(recs);
    while i < |recs| && recs[i].off + recs[i].len <= lastCommit
      invariant i <= n
      invariant alive.Keys == deleted.Keys
      invariant forall j <- alive :: deleted[j] == !alive[j]
      invariant forall j: Bytes :: (j in alive && alive[j]) <==> AliveAfter(recs[..i], j)
    {
      CommitEndSplits(recs, end, i);
      var p := recs[i];
      assert recs[..i + 1][..i] == recs[..i] && recs[..i + 1][i] == p;
      assert recs[..n][i] == p;
      if p.rec.typ in {REC_DOC, REC_DEL} {
        var j := Join(KeyOf(p));
        deleted := deleted[j := p.rec.typ == REC_DEL];
        alive := alive[j := p.rec.typ == REC_DOC];
      }
      i := i + 1;
    }
    if i < |recs| { CommitEndSplits(recs, end, i); }
  }

  method KeepLive(docs: seq<Placed>, alive: map<Bytes, bool>, deleted: map<Bytes, bool>, ghost ps: seq<Placed>)
    returns (live: seq<Placed>)
    requires AllDocs(docs)
    requires alive.Keys == deleted.Keys
    requires forall j: Bytes :: (j in alive && alive[j] && !deleted[j]) <==> AliveAfter(ps, j)
    ensures live == Living(docs, ps)
  {
    hide DecodeIDBlob, Join;
    live := [];
    for i := 0 to |docs|
      invariant live == Living(docs[..i], ps)
    {
      var j := Join(KeyOf(docs[i]));
      assert docs[..i + 1][..i] == docs[..i];
      if j in alive && alive[j] && !deleted[j] {
        live := live + [docs[i]];
      }
    }
    assert docs[..|docs|] == docs;
  }

  /** The entries a normal open installs, skipping collections META does not list. */
  method InstallEntries(docs: seq<Placed>, meta: Option<set<Bytes>>) returns (entries: map<Key, Placed>)
    requires AllDocs(docs)
    ensures entries == Gate(Install(docs), meta)
  {
    hide DecodeIDBlob;
    entries := map[];
    for i := 0 to |docs|
      invariant entries == Gate(Install(docs[..i]), meta)
    {
      assert docs[..i + 1][..i] == docs[..i];
      var k := KeyOf(docs[i]);
      if meta.None? || k.coll in meta.value {
        entries := entries[k := docs[i]];
      }
    }
    assert docs[..|docs|] == docs;
  }

  /** What an open installs of the committed records: the kept versions in the
      collections META lists, and those collections. */
  function Installed(c: Codec, ps: seq<Placed>): Recovered
    requires AllKeyed(ps)
  {
    Docs(Gate(Install(Living(DocsOf(ps), ps)), LastMeta(c, ps)), LastMeta(c, ps))
  }

  lemma EmptyLog(c: Codec)
    ensures Gate(Replay(map[], []), LastMeta(c, [])) == map[] && LastMeta(c, []) == None
    ensures AllKeyed([]) && Installed(c, []) == Docs(map[], None)
  {
  }

  /** The normal open, end to end: scan the bytes, then build the cold entries.
      truncated is the size the file is cut to, 0 when it is left alone. */
  method OpenV2(c: Codec, data: Bytes) returns (r: Recovered, truncated: nat)
    ensures r.Lost? <==> Recover(c, data).Lost?
    ensures var recs := Walk(c.crc, data, HEADER_SIZE).recs;
            var ps := recs[..CommitCount(recs)];
            && (r.Docs? ==> AllKeyed(ps) && r == Installed(c, ps))
            // so that, with the joined texts telling keys apart:
            && (FlagsTell(ps) ==> r == Recover(c, data))
    ensures r.Docs? ==>
      var w := Walk(c.crc, data, HEADER_SIZE);
      truncated == if CommitCount(w.recs) == 0 then HEADER_SIZE
                   else if w.end.TornAt? then w.end.off else 0
  {
    hide Walk, DecodeIDBlob, Living, DocsOf, Install, Replay, LastMeta, FlagsTell;
    truncated := 0;
    var first := CollectRecords(c.crc, data);
    if first.PassError? {
      return Lost, 0;
    }
    var recs := first.recs;
    ghost var ps := recs[..CommitCount(recs)];
    if first.lastCommit < 0 {
      assert ps == [] && Decodable(c, ps);
      EmptyLog(c);
      return Docs(map[], None), HEADER_SIZE;
    }
    truncated := first.truncated;
    var second := ApplyRecords(c, recs, first.lastCommit, |data|);
    if second.ApplyError? {
      return Lost, truncated;
    }
    var alive, deleted := FlagKeys(recs, first.lastCommit, |data|);
    var live := KeepLive(second.docs, alive, deleted, ps);
    var entries := InstallEntries(live, second.meta);
    InstallIsReplay(ps);
    return Docs(entries, second.meta), truncated;
  }
}
