/** What happens after a torn append is reopened and written to again. The open
    cuts the file where the torn record began, not at the last COMMIT, so whole
    records of the unfinished batch stay in the file and the next COMMIT adopts
    them. This module states exactly when no later open can show the difference. */
module TornTail {
  import opened ByteCodec
  import opened Values
  import opened RecordLog

  // ---------------------------------------------------------------- contents without offsets

  function RecEffect(m: map<Key, Rec>, r: Rec): map<Key, Rec>
  {
    match DecodeIDBlob(r.idBlob)
    case None => m
    case Some(k) =>
      if r.typ == REC_DOC then m[k := r] else if r.typ == REC_DEL then m - {k} else m
  }

  /** The live records after a list of records, whatever their offsets. */
  function Contents(m: map<Key, Rec>, rs: seq<Rec>): map<Key, Rec>
  {
    if rs == [] then m else RecEffect(Contents(m, rs[..|rs| - 1]), rs[|rs| - 1])
  }

  function Strip(m: map<Key, Placed>): map<Key, Rec> { map k | k in m :: m[k].rec }

  lemma {:induction false} ReplayContents(c: Codec, rs: seq<Rec>, at: nat)
    requires AllFit(rs)
    ensures Strip(Replay(map[], Place(c.crc, rs, at))) == Contents(map[], rs)
  {
    hide Layout, BuildRecord, Effect, RecEffect, Strip;
    if rs == [] {
      StripNothing();
    } else {
      var ps, front := Place(c.crc, rs, at), rs[..|rs| - 1];
      ReplayContents(c, front, at);
      assert ps[..|ps| - 1] == Place(c.crc, front, at);
      StripEffect(Replay(map[], ps[..|ps| - 1]), ps[|ps| - 1]);
    }
  }

  lemma StripNothing()
    ensures Strip(map[]) == map[]
  {
  }

  lemma StripEffect(m: map<Key, Placed>, p: Placed)
    ensures Strip(Effect(m, p)) == RecEffect(Strip(m), p.rec)
  {
    hide DecodeIDBlob;
  }

  lemma {:induction false} ContentsAppend(m: map<Key, Rec>, a: seq<Rec>, b: seq<Rec>)
    ensures Contents(m, a + b) == Contents(Contents(m, a), b)
  {
    if b == [] {
      assert a + b == a;
    } else {
      assert (a + b)[..|a + b| - 1] == a + b[..|b| - 1];
      ContentsAppend(m, a, b[..|b| - 1]);
    }
  }

  /** What a list of records does to one key. */
  datatype Action = Leaves | Sets(rec: Rec) | Clears

  function LastAction(rs: seq<Rec>, k: Key): Action
  {
    if rs == [] then Leaves else
      var r := rs[|rs| - 1];
      if r.typ in {REC_DOC, REC_DEL} && DecodeIDBlob(r.idBlob) == Some(k) then
        if r.typ == REC_DOC then Sets(r) else Clears
      else LastAction(rs[..|rs| - 1], k)
  }

  lemma {:induction false} ContentsByAction(m: map<Key, Rec>, rs: seq<Rec>, k: Key)
    ensures match LastAction(rs, k)
            case Leaves => (k in Contents(m, rs) <==> k in m) && (k in m ==> Contents(m, rs)[k] == m[k])
            case Sets(r) => k in Contents(m, rs) && Contents(m, rs)[k] == r
            case Clears => k !in Contents(m, rs)
  {
    hide DecodeIDBlob;
    if rs != [] { ContentsByAction(m, rs[..|rs| - 1], k); }
  }

  /** A key's document according to the log alone. */
  function OnDisk(c: Codec, log: seq<Rec>, k: Key): Option<Doc>
  {
    var m := Contents(map[], log);
    if k in m then Opened(c, m[k]) else None
  }

  function Opened(c: Codec, r: Rec): Option<Doc> { c.openDoc(r.flags, r.nonce, r.ct) }

  // ---------------------------------------------------------------- the reopened file

  /** The file as a normal open leaves it on disk. */
  function AfterOpen(c: Codec, data: Bytes): Bytes
  {
    var w := Walk(c.crc, data, HEADER_SIZE);
    if CommitCount(w.recs) == 0 then (if |data| > HEADER_SIZE then data[..HEADER_SIZE] else data)
    else if w.end.TornAt? && w.end.off < |data| then data[..w.end.off]
    else data
  }

  /** After a torn append, the whole records of the unfinished batch are kept. */
  lemma TornOpenKeepsTail(c: Codec, header: Bytes, log: seq<Rec>, batch: seq<Rec>, n: nat)
    requires |header| == HEADER_SIZE
    requires AllFit(log) && AllFit(batch) && Sealed(log) != [] && n <= |Layout(c.crc, batch)|
    ensures AllFit(log + Kept(c.crc, batch, n))
    ensures AfterOpen(c, header + Layout(c.crc, log) + Layout(c.crc, batch)[..n])
            == header + Layout(c.crc, log + Kept(c.crc, batch, n))
  {
    hide Layout, Place, Walk, BuildRecord, Kept, CommitCount, CommittedLen;
    var kept := Kept(c.crc, batch, n);
    var data := header + Layout(c.crc, log) + Layout(c.crc, batch)[..n];
    CutWalk(c.crc, header, log, batch, n);
    CommitCountIsLen(c.crc, log + kept);
    SealedStays(log, kept);
    LayoutAppend(c.crc, log, kept);
    LayoutAppend(c.crc, kept, batch[|kept|..]);
    assert batch == kept + batch[|kept|..];
    assert Layout(c.crc, batch)[..|Layout(c.crc, kept)|] == Layout(c.crc, kept);
    assert data[..HEADER_SIZE + |Layout(c.crc, log + kept)|] == header + Layout(c.crc, log + kept);
  }

  lemma {:induction false} SealedStays(log: seq<Rec>, more: seq<Rec>)
    requires CommittedLen(log) > 0
    ensures CommittedLen(log + more) > 0
  {
    if more == [] {
      assert log + more == log;
    } else {
      assert (log + more)[..|log + more| - 1] == log + more[..|more| - 1];
      SealedStays(log, more[..|more| - 1]);
    }
  }

  /** The next flush then commits the kept tail together with its own batch. */
  lemma NextFlushAdoptsTail(c: Codec, header: Bytes, base: seq<Rec>, tail: seq<Rec>, next: seq<Rec>)
    requires |header| == HEADER_SIZE
    requires AllFit(base) && AllFit(tail) && AllFit(next) && EndsInCommit(next)
    ensures Recover(c, header + Layout(c.crc, base + tail) + Layout(c.crc, next))
            == Committed(c, base + tail + next)
  {
    hide Layout, Committed, Recover;
    LayoutAppend(c.crc, base + tail, next);
    RecoverWhole(c, header, base + tail + next);
    assert header + Layout(c.crc, base + tail) + Layout(c.crc, next)
        == header + (Layout(c.crc, base + tail) + Layout(c.crc, next));
  }

  // ---------------------------------------------------------------- what an open shows

  /** The documents a store shows after an open; None when the open fails. */
  function Shown(c: Codec, r: Recovered): Option<map<Key, Option<Doc>>>
  {
    match r
    case Lost => None
    case Docs(m, _) => Some(map k | k in m :: Opened(c, m[k].rec))
  }

  predicate Readable(c: Codec, rs: seq<Rec>) { forall i | 0 <= i < |rs| :: RecDecodable(c, rs[i]) }

  /** The collections listed by the last META, if there is one. */
  function MetaOf(c: Codec, rs: seq<Rec>): Option<set<Bytes>>
  {
    if rs == [] then None
    else if rs[|rs| - 1].typ == REC_META then
      c.openMeta(rs[|rs| - 1].flags, rs[|rs| - 1].nonce, rs[|rs| - 1].ct)
    else MetaOf(c, rs[..|rs| - 1])
  }

  predicate HasMeta(rs: seq<Rec>) { exists i | 0 <= i < |rs| :: rs[i].typ == REC_META }

  lemma {:induction false} MetaAppend(c: Codec, a: seq<Rec>, b: seq<Rec>)
    requires HasMeta(b)
    ensures MetaOf(c, a + b) == MetaOf(c, b)
  {
    var n := |b| - 1;
    assert (a + b)[..|a| + n] == a + b[..n];
    if b[n].typ != REC_META {
      var i :| 0 <= i < |b| && b[i].typ == REC_META;
      assert b[..n][i].typ == REC_META;
      MetaAppend(c, a, b[..n]);
    }
  }

  lemma {:induction false} LastMetaIs(c: Codec, rs: seq<Rec>, at: nat)
    requires AllFit(rs)
    ensures LastMeta(c, Place(c.crc, rs, at)) == MetaOf(c, rs)
  {
    hide Layout, BuildRecord;
    if rs != [] {
      LastMetaIs(c, rs[..|rs| - 1], at);
      var ps := Place(c.crc, rs, at);
      assert ps[..|ps| - 1] == Place(c.crc, rs[..|rs| - 1], at);
    }
  }

  predicate Listed(meta: Option<set<Bytes>>, k: Key) { meta.None? || k.coll in meta.value }

  /** What is shown, key by key, is what the records say and META lists. */
  lemma ShownCommitted(c: Codec, rs: seq<Rec>)
    requires AllFit(rs)
    ensures Shown(c, Committed(c, rs)).Some? <==> Readable(c, rs)
    ensures Readable(c, rs) ==>
      forall k: Key ::
        var shown := Shown(c, Committed(c, rs)).value;
        && (k in shown <==> k in Contents(map[], rs) && Listed(MetaOf(c, rs), k))
        && (k in shown ==> shown[k] == OnDisk(c, rs, k))
  {
    hide Replay, Contents, LastMeta, MetaOf, Place, RecDecodable;
    var ps := Place(c.crc, rs, HEADER_SIZE);
    ReplayContents(c, rs, HEADER_SIZE);
    LastMetaIs(c, rs, HEADER_SIZE);
    PlacedReadable(c, rs);
    var m := Replay(map[], ps);
    assert forall k: Key :: k in Strip(m) <==> k in m;
  }

  lemma PlacedReadable(c: Codec, rs: seq<Rec>)
    requires AllFit(rs)
    ensures Decodable(c, Place(c.crc, rs, HEADER_SIZE)) <==> Readable(c, rs)
  {
    hide RecDecodable, Place;
    var ps := Place(c.crc, rs, HEADER_SIZE);
    if Decodable(c, ps) {
      forall i | 0 <= i < |rs|
        ensures RecDecodable(c, rs[i])
      {
        assert RecDecodable(c, ps[i].rec);
      }
    }
  }

  // ---------------------------------------------------------------- exactly when it is harmless

  /** Each record left behind says what the committed log already shows. */
  ghost predicate HarmlessTail(c: Codec, base: seq<Rec>, tail: seq<Rec>)
  {
    forall k: Key ::
      match LastAction(tail, k)
      case Leaves => true
      case Sets(r) => k in Contents(map[], base) && OnDisk(c, base, k) == Opened(c, r)
      case Clears => k !in Contents(map[], base)
  }

  /** Two logs show the same documents, whatever collections are listed. */
  ghost predicate SameDocs(c: Codec, a: seq<Rec>, b: seq<Rec>)
  {
    forall k: Key ::
      && (k in Contents(map[], a) <==> k in Contents(map[], b))
      && OnDisk(c, a, k) == OnDisk(c, b, k)
  }

  lemma HarmlessIsSame(c: Codec, base: seq<Rec>, tail: seq<Rec>)
    ensures HarmlessTail(c, base, tail) <==> SameDocs(c, base + tail, base)
  {
    hide DecodeIDBlob, LastAction, Contents, Opened;
    forall k: Key
      ensures match LastAction(tail, k)
              case Leaves => (k in Contents(map[], base + tail) <==> k in Contents(map[], base))
                             && OnDisk(c, base + tail, k) == OnDisk(c, base, k)
              case Sets(r) => k in Contents(map[], base + tail) && OnDisk(c, base + tail, k) == Opened(c, r)
              case Clears => k !in Contents(map[], base + tail) && OnDisk(c, base + tail, k) == None
    {
      ActionOnDisk(c, base, tail, k);
    }
    hide OnDisk;
    if HarmlessTail(c, base, tail) {
      forall k: Key
        ensures k in Contents(map[], base + tail) <==> k in Contents(map[], base)
        ensures OnDisk(c, base + tail, k) == OnDisk(c, base, k)
      {
        AbsentOnDisk(c, base, k);
      }
    }
  }

  lemma AbsentOnDisk(c: Codec, rs: seq<Rec>, k: Key)
    ensures k !in Contents(map[], rs) ==> OnDisk(c, rs, k) == None
  {
  }

  lemma ActionOnDisk(c: Codec, base: seq<Rec>, more: seq<Rec>, k: Key)
    ensures match LastAction(more, k)
            case Leaves => (k in Contents(map[], base + more) <==> k in Contents(map[], base))
                           && OnDisk(c, base + more, k) == OnDisk(c, base, k)
            case Sets(r) => k in Contents(map[], base + more) && OnDisk(c, base + more, k) == Opened(c, r)
            case Clears => k !in Contents(map[], base + more) && OnDisk(c, base + more, k) == None
  {
    hide DecodeIDBlob, LastAction, Contents, Opened;
    ContentsAppend(map[], base, more);
    ContentsByAction(Contents(map[], base), more, k);
  }

  /** Logs that show the same go on showing the same. */
  lemma SameDocsAppend(c: Codec, a: seq<Rec>, b: seq<Rec>, more: seq<Rec>)
    requires SameDocs(c, a, b)
    ensures SameDocs(c, a + more, b + more)
  {
    hide LastAction, Contents, OnDisk, Opened;
    forall k: Key
      ensures k in Contents(map[], a + more) <==> k in Contents(map[], b + more)
      ensures OnDisk(c, a + more, k) == OnDisk(c, b + more, k)
    {
      assert (k in Contents(map[], a) <==> k in Contents(map[], b)) && OnDisk(c, a, k) == OnDisk(c, b, k);
      ActionOnDisk(c, a, more, k);
      ActionOnDisk(c, b, more, k);
    }
  }

  /** What a program may write after the reopen: any number of batches, the last of
      them whole, each with its META. */
  predicate LaterFlushes(later: seq<Rec>) { AllFit(later) && EndsInCommit(later) && HasMeta(later) }

  /** Whatever is flushed later, the next open shows the same documents as it would
      had the torn append left nothing. */
  ghost predicate TailNeverShows(c: Codec, header: Bytes, base: seq<Rec>, reopened: Bytes)
    requires AllFit(base)
  {
    forall later: seq<Rec> | LaterFlushes(later) ::
      Shown(c, Recover(c, reopened + Layout(c.crc, later)))
      == Shown(c, Recover(c, header + Layout(c.crc, base) + Layout(c.crc, later)))
  }

  /** An append is torn, the store is reopened, and flushes follow. No later open
      shows a trace of the torn append if and only if the records it left decode and
      say what the committed log already shows. left is what earlier torn appends
      left behind; meta is one META record that lists every collection in play. */
  lemma TornTailExact(c: Codec, header: Bytes, base: seq<Rec>, left: seq<Rec>, batch: seq<Rec>, n: nat, meta: Rec)
    requires |header| == HEADER_SIZE && AllFit(base) && AllFit(left) && AllFit(batch) && n <= |Layout(c.crc, batch)|
    requires EndsInCommit(base) && Readable(c, base) && Unsealed(left)
    requires ListsAll(c, meta, base + left + Kept(c.crc, batch, n))
    ensures var tail := left + Kept(c.crc, batch, n);
            var torn := header + Layout(c.crc, base + left) + Layout(c.crc, batch)[..n];
            TailNeverShows(c, header, base, AfterOpen(c, torn))
            <==> Readable(c, tail) && HarmlessTail(c, base, tail)
  {
    hide Layout, Recover, AfterOpen, Kept, Readable, HarmlessTail, TailNeverShows, ListsAll, Sealed;
    var tail := left + Kept(c.crc, batch, n);
    SealedWhole(base);
    SealedAppend(base, left);
    TornOpenKeepsTail(c, header, base + left, batch, n);
    assert base + left + Kept(c.crc, batch, n) == base + tail;
    TailExact(c, header, base, tail, meta);
  }

  /** A META that lists the collection of every document either log holds. */
  predicate ListsAll(c: Codec, meta: Rec, rs: seq<Rec>)
  {
    && meta.Fits() && meta.typ == REC_META && MetaOf(c, [meta]).Some?
    && forall i | 0 <= i < |rs| ::
         rs[i].typ == REC_DOC && DecodeIDBlob(rs[i].idBlob).Some? ==>
           DecodeIDBlob(rs[i].idBlob).value.coll in MetaOf(c, [meta]).value
  }

  lemma TailExact(c: Codec, header: Bytes, base: seq<Rec>, tail: seq<Rec>, meta: Rec)
    requires |header| == HEADER_SIZE && AllFit(base) && AllFit(tail)
    requires Readable(c, base) && ListsAll(c, meta, base + tail)
    ensures TailNeverShows(c, header, base, header + Layout(c.crc, base + tail))
            <==> Readable(c, tail) && HarmlessTail(c, base, tail)
  {
    hide Layout, Recover, Readable, HarmlessTail, ListsAll;
    HarmlessIsSame(c, base, tail);
    if Readable(c, tail) && HarmlessTail(c, base, tail) {
      forall later: seq<Rec> | LaterFlushes(later)
        ensures Shown(c, Recover(c, header + Layout(c.crc, base + tail) + Layout(c.crc, later)))
                == Shown(c, Recover(c, header + Layout(c.crc, base) + Layout(c.crc, later)))
      {
        HarmlessNeverShows(c, header, base, tail, later);
      }
    }
    if TailNeverShows(c, header, base, header + Layout(c.crc, base + tail)) {
      NeverShownIsHarmless(c, header, base, tail, meta);
    }
  }

  lemma LaterRecovers(c: Codec, header: Bytes, base: seq<Rec>, tail: seq<Rec>, later: seq<Rec>)
    requires |header| == HEADER_SIZE && AllFit(base) && AllFit(tail) && LaterFlushes(later)
    ensures AllFit(later)
    ensures Recover(c, header + Layout(c.crc, base + tail) + Layout(c.crc, later)) == Committed(c, base + tail + later)
    ensures Recover(c, header + Layout(c.crc, base) + Layout(c.crc, later)) == Committed(c, base + later)
  {
    hide Recover, Layout, Committed;
    NextFlushAdoptsTail(c, header, base, tail, later);
    NextFlushAdoptsTail(c, header, base, [], later);
    assert base + [] == base;
  }

  lemma ReadableAppend(c: Codec, a: seq<Rec>, b: seq<Rec>)
    ensures Readable(c, a + b) <==> Readable(c, a) && Readable(c, b)
  {
    hide RecDecodable;
    if Readable(c, a + b) {
      forall i | 0 <= i < |a|
        ensures RecDecodable(c, a[i])
      {
        assert RecDecodable(c, (a + b)[i]);
      }
      forall i | 0 <= i < |b|
        ensures RecDecodable(c, b[i])
      {
        assert RecDecodable(c, (a + b)[|a| + i]);
      }
    }
  }

  lemma HarmlessNeverShows(c: Codec, header: Bytes, base: seq<Rec>, tail: seq<Rec>, later: seq<Rec>)
    requires |header| == HEADER_SIZE && AllFit(base) && AllFit(tail) && LaterFlushes(later)
    requires Readable(c, tail) && SameDocs(c, base + tail, base)
    ensures AllFit(later)
    ensures Shown(c, Recover(c, header + Layout(c.crc, base + tail) + Layout(c.crc, later)))
            == Shown(c, Recover(c, header + Layout(c.crc, base) + Layout(c.crc, later)))
  {
    hide Recover, Layout, Committed, Readable, SameDocs, Shown, OnDisk, Contents, MetaOf;
    LaterRecovers(c, header, base, tail, later);
    SameDocsAppend(c, base + tail, base, later);
    MetaAppend(c, base + tail, later);
    MetaAppend(c, base, later);
    ReadableAppend(c, base + tail, later);
    ReadableAppend(c, base, tail);
    ReadableAppend(c, base, later);
    SameShown(c, base + tail + later, base + later);
  }

  lemma SameShown(c: Codec, a: seq<Rec>, b: seq<Rec>)
    requires AllFit(a) && AllFit(b) && SameDocs(c, a, b)
    requires MetaOf(c, a) == MetaOf(c, b) && (Readable(c, a) <==> Readable(c, b))
    ensures Shown(c, Committed(c, a)) == Shown(c, Committed(c, b))
  {
    hide Committed, Shown, OnDisk, Contents, MetaOf, Readable;
    ShownCommitted(c, a);
    ShownCommitted(c, b);
    if Readable(c, a) {
      var x, y := Shown(c, Committed(c, a)).value, Shown(c, Committed(c, b)).value;
      forall k: Key
        ensures k in x <==> k in y
        ensures k in x ==> x[k] == y[k]
      {
        assert (k in Contents(map[], a) <==> k in Contents(map[], b)) && OnDisk(c, a, k) == OnDisk(c, b, k);
      }
      assert x == y;
    }
  }

  /** The flush that tells: it writes nothing but a META and a COMMIT. */
  lemma NeverShownIsHarmless(c: Codec, header: Bytes, base: seq<Rec>, tail: seq<Rec>, meta: Rec)
    requires |header| == HEADER_SIZE && AllFit(base) && AllFit(tail)
    requires Readable(c, base) && ListsAll(c, meta, base + tail)
    requires TailNeverShows(c, header, base, header + Layout(c.crc, base + tail))
    ensures Readable(c, tail) && SameDocs(c, base + tail, base)
  {
    hide Recover, Layout, Committed, Readable, Shown, OnDisk, Contents, MetaOf, ListsAll, HasMeta;
    var later := MetaFlush(c, meta, base + tail);
    LaterRecovers(c, header, base, tail, later);
    assert Shown(c, Committed(c, base + tail + later)) == Shown(c, Committed(c, base + later));
    MetaAppend(c, base + tail, later);
    MetaAppend(c, base, later);
    ReadableAppend(c, base + tail, later);
    ReadableAppend(c, base, tail);
    ReadableAppend(c, base, later);
    ShownCommitted(c, base + tail + later);
    ShownCommitted(c, base + later);
    forall k: Key
      ensures k in Contents(map[], base + tail) <==> k in Contents(map[], base)
      ensures OnDisk(c, base + tail, k) == OnDisk(c, base, k)
    {
      InertOnDisk(c, base + tail, later, k);
      InertOnDisk(c, base, later, k);
      AllListed(c, meta, base, tail, k);
      AbsentOnDisk(c, base, k);
      AbsentOnDisk(c, base + tail, k);
    }
  }

  predicate Inert(rs: seq<Rec>) { forall i | 0 <= i < |rs| :: rs[i].typ !in {REC_DOC, REC_DEL} }

  lemma {:induction false} InertLeaves(rs: seq<Rec>, k: Key)
    requires Inert(rs)
    ensures LastAction(rs, k) == Leaves
  {
    if rs != [] { InertLeaves(rs[..|rs| - 1], k); }
  }

  lemma InertOnDisk(c: Codec, rs: seq<Rec>, more: seq<Rec>, k: Key)
    requires Inert(more)
    ensures OnDisk(c, rs + more, k) == OnDisk(c, rs, k)
    ensures k in Contents(map[], rs + more) <==> k in Contents(map[], rs)
  {
    hide OnDisk, Contents;
    InertLeaves(more, k);
    ActionOnDisk(c, rs, more, k);
  }

  lemma MetaFlush(c: Codec, meta: Rec, rs: seq<Rec>) returns (later: seq<Rec>)
    requires ListsAll(c, meta, rs)
    ensures LaterFlushes(later) && HasMeta(later) && Inert(later) && Readable(c, later)
    ensures MetaOf(c, later) == MetaOf(c, [meta])
  {
    var commit := Rec(REC_COMMIT, 0, [], [0, 0, 0, 0, 0, 0, 0, 0, 0, 0, 0, 0], []);
    later := [meta, commit];
    assert later[0].typ == REC_META;
    assert later[..1] == [meta];
  }

  lemma {:induction false} HeldBy(rs: seq<Rec>, k: Key) returns (i: nat)
    requires k in Contents(map[], rs)
    ensures i < |rs| && rs[i].typ == REC_DOC && DecodeIDBlob(rs[i].idBlob) == Some(k)
  {
    hide DecodeIDBlob;
    var n := |rs| - 1;
    if rs[n].typ == REC_DOC && DecodeIDBlob(rs[n].idBlob) == Some(k) {
      i := n;
    } else {
      i := HeldBy(rs[..n], k);
    }
  }

  lemma AllListed(c: Codec, meta: Rec, base: seq<Rec>, tail: seq<Rec>, k: Key)
    requires ListsAll(c, meta, base + tail)
    ensures k in Contents(map[], base + tail) || k in Contents(map[], base) ==> Listed(MetaOf(c, [meta]), k)
  {
    hide DecodeIDBlob, Contents, MetaOf;
    if k in Contents(map[], base + tail) {
      var i := HeldBy(base + tail, k);
    } else if k in Contents(map[], base) {
      var i := HeldBy(base, k);
      assert (base + tail)[i] == base[i];
    }
  }
}
