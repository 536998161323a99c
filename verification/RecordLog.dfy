/** The append-only record log of format version 2: how records become bytes, how
    a scan turns bytes back into live documents, and what survives a crash that
    cuts an append at an arbitrary byte. */
module RecordLog {
  import opened ByteCodec
  import opened Values

  const HEADER_SIZE: nat := 152
  const REC_HDR_SIZE: nat := 24

  const REC_DOC: Byte := 1
  const REC_META: Byte := 2
  const REC_IDX: Byte := 3
  const REC_DEL: Byte := 4
  const REC_COMMIT: Byte := 5

  /** A document's address: collection name and document id. */
  datatype Key = Key(coll: Bytes, id: Bytes)

  datatype Rec = Rec(typ: Byte, flags: Byte, idBlob: Bytes, nonce: Bytes, ct: Bytes) {
    /** The limits buildRecord enforces before it writes anything. */
    predicate Fits() {
      |idBlob| <= 0xffff && |ct| <= 0xffff_ffff && |nonce| == 12
    }
  }

  /** The library-backed parts: an uninterpreted checksum, and sealing (compress
      and encrypt) with its inverse. A META record opens to its collection names, an
      IDX record to its text. */
  datatype Codec = Codec(
    crc: Bytes -> U32,
    sealDoc: (Bytes, Doc) -> (Byte, Bytes),
    openDoc: (Byte, Bytes, Bytes) -> Option<Doc>,
    sealMeta: (Bytes, set<Bytes>) -> (Byte, Bytes),
    openMeta: (Byte, Bytes, Bytes) -> Option<set<Bytes>>,
    sealIdx: (Bytes, Bytes) -> (Byte, Bytes),
    openIdx: (Byte, Bytes, Bytes) -> Option<Bytes>)

  // ---------------------------------------------------------------- id blobs

  function EncodeIDBlob(coll: Bytes, id: Bytes): Bytes
  {
    var name := if |coll| > 0xffff then coll[..0xffff] else coll;
    [|name| / 256, |name| % 256] + name + id
  }

  function DecodeIDBlob(b: Bytes): Option<Key>
  {
    if |b| < 2 then None else
      var cl := b[0] as int * 256 + b[1];
      if 2 + cl > |b| then None else Some(Key(b[2..2 + cl], b[2 + cl..]))
  }

  /** An id blob names its document exactly when the collection name fits the
      16-bit length; a longer name is cut and comes back as another key. */
  lemma IDBlobRoundTrip(coll: Bytes, id: Bytes)
    ensures DecodeIDBlob(EncodeIDBlob(coll, id)) == Some(Key(coll, id)) <==> |coll| <= 0xffff
  {
    var name := if |coll| > 0xffff then coll[..0xffff] else coll;
    var b := EncodeIDBlob(coll, id);
    assert b[0] as int * 256 + b[1] == |name|;
    assert b[2..2 + |name|] == name && b[2 + |name|..] == id;
  }

  // ---------------------------------------------------------------- one record

  function Header20(r: Rec): (h: Bytes)
    requires r.Fits()
    ensures |h| == 20
  {
    [r.typ, r.flags] + LE(|r.idBlob|, 2) + LE(|r.ct|, 4) + r.nonce
  }

  function BuildRecord(crc: Bytes -> U32, r: Rec): (b: Bytes)
    requires r.Fits()
    ensures |b| == REC_HDR_SIZE + |r.idBlob| + |r.ct|
  {
    Header20(r) + LE(crc(Header20(r) + r.idBlob + r.ct), 4) + r.idBlob + r.ct
  }

  datatype Parsed = Whole(rec: Rec, total: nat) | Torn | Corrupt

  function ParseRecordAt(crc: Bytes -> U32, data: Bytes, off: nat): (p: Parsed)
    ensures p.Whole? ==> p.total >= REC_HDR_SIZE && off + p.total <= |data| && p.rec.Fits()
  {
    if off + REC_HDR_SIZE > |data| then Torn else
      var hdr := data[off..off + REC_HDR_SIZE];
      var idLen := UnLE(hdr[2..4]);
      var payLen := UnLE(hdr[4..8]);
      var total := REC_HDR_SIZE + idLen + payLen;
      if off + total > |data| then Torn else
        var idBlob := data[off + REC_HDR_SIZE..off + REC_HDR_SIZE + idLen];
        var ct := data[off + REC_HDR_SIZE + idLen..off + total];
        SpanOfWords();
        if UnLE(hdr[20..24]) != crc(data[off..off + 20] + idBlob + ct) then Corrupt
        else Whole(Rec(hdr[0], hdr[1], idBlob, hdr[8..20], ct), total)
  }

  lemma HeaderFields(crc: Bytes -> U32, r: Rec)
    requires r.Fits()
    ensures var b := BuildRecord(crc, r);
            && b[0] == r.typ && b[1] == r.flags
            && UnLE(b[2..4]) == |r.idBlob| && UnLE(b[4..8]) == |r.ct|
            && b[8..20] == r.nonce && b[..20] == Header20(r)
            && UnLE(b[20..24]) == crc(Header20(r) + r.idBlob + r.ct)
  {
    SpanOfWords();
    var b := BuildRecord(crc, r);
    LERoundTrip(|r.idBlob|, 2);
    LERoundTrip(|r.ct|, 4);
    var sum := crc(Header20(r) + r.idBlob + r.ct);
    LERoundTrip(sum, 4);
    assert b[2..4] == LE(|r.idBlob|, 2);
    assert b[4..8] == LE(|r.ct|, 4);
    assert b[8..20] == r.nonce;
    assert b[20..24] == LE(sum, 4);
  }

  /** Where the parts of a record lie in a file. */
  lemma RecordParts(crc: Bytes -> U32, pre: Bytes, r: Rec, post: Bytes)
    requires r.Fits()
    ensures var b := BuildRecord(crc, r);
            var data := pre + b + post;
            var off := |pre|;
            var idEnd := off + REC_HDR_SIZE + |r.idBlob|;
            && data[off..off + REC_HDR_SIZE] == b[..REC_HDR_SIZE]
            && data[off..off + 20] == Header20(r)
            && data[off + REC_HDR_SIZE..idEnd] == r.idBlob
            && data[idEnd..off + |b|] == r.ct
  {
    hide Header20, LE;
    var h20 := Header20(r);
    var b := BuildRecord(crc, r);
    var data := pre + b + post;
    Pieces(h20, LE(crc(h20 + r.idBlob + r.ct), 4), r.idBlob, r.ct);
    hide BuildRecord;
    Inside(pre, b, post, 0, REC_HDR_SIZE);
    Inside(pre, b, post, 0, 20);
    Inside(pre, b, post, REC_HDR_SIZE, REC_HDR_SIZE + |r.idBlob|);
    Inside(pre, b, post, REC_HDR_SIZE + |r.idBlob|, |b|);
  }

  lemma Pieces(a: Bytes, b: Bytes, c: Bytes, d: Bytes)
    ensures var all := a + b + c + d;
            var j := |a| + |b|;
            && all[..|a|] == a && all[j..j + |c|] == c && all[j + |c|..] == d
  {
    assert (a + b + c)[|a| + |b|..] == c;
  }

  /** A part of x, found inside a longer list that holds x. */
  lemma Inside(pre: Bytes, x: Bytes, post: Bytes, i: nat, j: nat)
    requires i <= j <= |x|
    ensures (pre + x + post)[|pre| + i..|pre| + j] == x[i..j]
  {
  }

  /** A written record, wherever it lies in a file, parses back to itself. */
  lemma ParseBuilt(crc: Bytes -> U32, pre: Bytes, r: Rec, post: Bytes)
    requires r.Fits()
    ensures ParseRecordAt(crc, pre + BuildRecord(crc, r) + post, |pre|)
            == Whole(r, |BuildRecord(crc, r)|)
  {
    hide Header20, BuildRecord;
    var b := BuildRecord(crc, r);
    HeaderFields(crc, r);
    RecordParts(crc, pre, r, post);
    var hdr := b[..REC_HDR_SIZE];
    assert hdr[2..4] == b[2..4] && hdr[4..8] == b[4..8];
    assert hdr[8..20] == b[8..20] && hdr[20..24] == b[20..24];
  }

  /** A record missing any of its last bytes is seen as torn, never as another
      record: the lengths sit in the part that is complete first. */
  lemma ParseCut(crc: Bytes -> U32, pre: Bytes, r: Rec, n: nat)
    requires r.Fits() && n < |BuildRecord(crc, r)|
    ensures ParseRecordAt(crc, pre + BuildRecord(crc, r)[..n], |pre|) == Torn
  {
    var b := BuildRecord(crc, r);
    var data := pre + b[..n];
    if n >= REC_HDR_SIZE {
      HeaderFields(crc, r);
      var hdr := data[|pre|..|pre| + REC_HDR_SIZE];
      assert hdr == b[..REC_HDR_SIZE];
      assert hdr[2..4] == b[2..4] && hdr[4..8] == b[4..8];
    }
  }

  // ---------------------------------------------------------------- many records

  predicate AllFit(rs: seq<Rec>) { forall i | 0 <= i < |rs| :: rs[i].Fits() }

  /** The bytes a writer appends for a list of records. */
  function Layout(crc: Bytes -> U32, rs: seq<Rec>): Bytes
    requires AllFit(rs)
  {
    if rs == [] then [] else
      Layout(crc, rs[..|rs| - 1]) + BuildRecord(crc, rs[|rs| - 1])
  }

  /** A record together with the offset and length the writer gave it. */
  datatype Placed = Placed(rec: Rec, off: nat, len: nat)

  /** The records at the places where Layout puts them, starting at offset at. */
  function Place(crc: Bytes -> U32, rs: seq<Rec>, at: nat): (ps: seq<Placed>)
    requires AllFit(rs)
    ensures |ps| == |rs|
    ensures forall i | 0 <= i < |rs| :: ps[i].rec == rs[i]
  {
    if rs == [] then [] else
      var front := rs[..|rs| - 1];
      var r := rs[|rs| - 1];
      Place(crc, front, at) + [Placed(r, at + |Layout(crc, front)|, |BuildRecord(crc, r)|)]
  }

  lemma {:induction false} LayoutAppend(crc: Bytes -> U32, a: seq<Rec>, b: seq<Rec>)
    requires AllFit(a) && AllFit(b)
    ensures Layout(crc, a + b) == Layout(crc, a) + Layout(crc, b)
  {
    hide BuildRecord, Layout;
    if b == [] {
      assert a + b == a;
      EmptyLayout(crc);
    } else {
      var front, last := b[..|b| - 1], b[|b| - 1];
      LayoutAppend(crc, a, front);
      LayoutSnoc(crc, a + front, last);
      LayoutSnoc(crc, front, last);
      assert a + b == (a + front) + [last] && b == front + [last];
    }
  }

  lemma EmptyLayout(crc: Bytes -> U32)
    ensures Layout(crc, []) == []
  {
  }

  lemma LayoutSnoc(crc: Bytes -> U32, rs: seq<Rec>, r: Rec)
    requires AllFit(rs) && r.Fits()
    ensures Layout(crc, rs + [r]) == Layout(crc, rs) + BuildRecord(crc, r)
  {
    assert (rs + [r])[..|rs|] == rs;
  }

  lemma {:induction false} PlaceAppend(crc: Bytes -> U32, a: seq<Rec>, b: seq<Rec>, at: nat)
    requires AllFit(a) && AllFit(b)
    ensures Place(crc, a + b, at) == Place(crc, a, at) + Place(crc, b, at + |Layout(crc, a)|)
  {
    hide BuildRecord, Layout;
    if b == [] {
      assert a + b == a;
    } else {
      var front, last := b[..|b| - 1], b[|b| - 1];
      PlaceAppend(crc, a, front, at);
      LayoutAppend(crc, a, front);
      assert a + b == (a + front) + [last];
      assert (a + front + [last])[..|a + front|] == a + front;
    }
  }

  /** Any slice of the file at a record's place is that record's bytes. */
  lemma {:induction false} SliceAtPlace(crc: Bytes -> U32, pre: Bytes, rs: seq<Rec>, post: Bytes, i: nat)
    requires AllFit(rs) && i < |rs|
    ensures var p := Place(crc, rs, |pre|)[i];
            && |pre| <= p.off && p.off + p.len <= |pre + Layout(crc, rs)|
            && p.len == |BuildRecord(crc, rs[i])|
            && (pre + Layout(crc, rs) + post)[p.off..p.off + p.len] == BuildRecord(crc, rs[i])
  {
    hide BuildRecord;
    var front := rs[..|rs| - 1];
    var lastBytes := BuildRecord(crc, rs[|rs| - 1]);
    if i == |rs| - 1 {
      var data := pre + Layout(crc, rs) + post;
      var start := |pre| + |Layout(crc, front)|;
      assert data[start..start + |lastBytes|] == lastBytes;
    } else {
      SliceAtPlace(crc, pre, front, lastBytes + post, i);
      assert pre + Layout(crc, rs) + post == pre + Layout(crc, front) + (lastBytes + post);
    }
  }

  datatype WalkEnd = AtEnd | TornAt(off: nat) | BadRecord
  datatype WalkResult = WalkResult(recs: seq<Placed>, end: WalkEnd)

  /** The first pass of a scan: every complete record from off on. */
  function Walk(crc: Bytes -> U32, data: Bytes, off: nat): WalkResult
    decreases |data| - off
  {
    if off >= |data| then WalkResult([], AtEnd) else
      match ParseRecordAt(crc, data, off)
      case Torn => WalkResult([], TornAt(off))
      case Corrupt => WalkResult([], BadRecord)
      case Whole(r, total) =>
        var rest := Walk(crc, data, off + total);
        WalkResult([Placed(r, off, total)] + rest.recs, rest.end)
  }

  /** How many leading records lie wholly within the first n bytes of a layout. */
  function WholeCount(crc: Bytes -> U32, rs: seq<Rec>, n: nat): (j: nat)
    requires AllFit(rs)
    ensures j <= |rs|
    ensures |Layout(crc, rs[..j])| <= n
    ensures j < |rs| ==> n < |Layout(crc, rs[..j + 1])|
    ensures n >= |Layout(crc, rs)| ==> j == |rs|
  {
    hide BuildRecord, Layout;
    EmptyLayout(crc);
    assert rs[..|rs|] == rs;
    if n >= |Layout(crc, rs)| then |rs|
    else
      var front := rs[..|rs| - 1];
      var j := WholeCount(crc, front, n);
      FrontPrefix(rs, j);
      j
  }

  lemma FrontPrefix<T>(s: seq<T>, j: nat)
    requires j < |s|
    ensures s[..j] == s[..|s| - 1][..j]
    ensures s[..j + 1] == if j < |s| - 1 then s[..|s| - 1][..j + 1] else s
  {
  }

  lemma {:induction false} WalkOne(crc: Bytes -> U32, pre: Bytes, r: Rec, post: Bytes)
    requires r.Fits()
    ensures var data := pre + BuildRecord(crc, r) + post;
            var rest := Walk(crc, data, |pre| + |BuildRecord(crc, r)|);
            Walk(crc, data, |pre|)
            == WalkResult([Placed(r, |pre|, |BuildRecord(crc, r)|)] + rest.recs, rest.end)
  {
    hide ParseRecordAt, BuildRecord;
    ParseBuilt(crc, pre, r, post);
  }

  /** Walking over whole records at the front of a file just collects them. */
  lemma {:induction false} WalkWhole(crc: Bytes -> U32, pre: Bytes, rs: seq<Rec>, post: Bytes)
    requires AllFit(rs)
    ensures var rest := Walk(crc, pre + Layout(crc, rs) + post, |pre| + |Layout(crc, rs)|);
            Walk(crc, pre + Layout(crc, rs) + post, |pre|)
            == WalkResult(Place(crc, rs, |pre|) + rest.recs, rest.end)
  {
    hide ParseRecordAt, BuildRecord, Walk;
    if rs != [] {
      var front, r := rs[..|rs| - 1], rs[|rs| - 1];
      var b, laid := BuildRecord(crc, r), Layout(crc, front);
      WalkWhole(crc, pre, front, b + post);
      WalkOne(crc, pre + laid, r, post);
      assert pre + Layout(crc, rs) + post == pre + laid + b + post == pre + laid + (b + post);
    } else {
      var rest := Walk(crc, pre + Layout(crc, rs) + post, |pre|);
      assert Place(crc, rs, |pre|) + rest.recs == rest.recs;
    }
  }

  /** The first n bytes of a layout: whole records, then part of the next one. */
  lemma LayoutCut(crc: Bytes -> U32, rs: seq<Rec>, n: nat)
    requires AllFit(rs) && n <= |Layout(crc, rs)|
    ensures var j := WholeCount(crc, rs, n);
            var front := Layout(crc, rs[..j]);
            && (j < |rs| ==> n - |front| < |BuildRecord(crc, rs[j])|)
            && Layout(crc, rs)[..n]
            == front + (if j == |rs| then [] else BuildRecord(crc, rs[j])[..n - |front|])
  {
    hide BuildRecord, Layout;
    var j := WholeCount(crc, rs, n);
    if j == |rs| {
      assert rs[..j] == rs;
    } else {
      LayoutNext(crc, rs, j);
      var front, b := Layout(crc, rs[..j]), BuildRecord(crc, rs[j]);
      assert rs == rs[..j + 1] + rs[j + 1..];
      LayoutAppend(crc, rs[..j + 1], rs[j + 1..]);
      assert (front + b + Layout(crc, rs[j + 1..]))[..n] == front + b[..n - |front|];
    }
  }

  lemma LayoutNext(crc: Bytes -> U32, rs: seq<Rec>, j: nat)
    requires AllFit(rs) && j < |rs|
    ensures Layout(crc, rs[..j + 1]) == Layout(crc, rs[..j]) + BuildRecord(crc, rs[j])
  {
    assert rs[..j + 1][..j] == rs[..j];
  }

  /** The walk over a log cut after n bytes: exactly the records that are wholly
      there, then either the end of the file or a tear where the next one began. */
  lemma WalkCut(crc: Bytes -> U32, pre: Bytes, rs: seq<Rec>, n: nat)
    requires AllFit(rs) && n <= |Layout(crc, rs)|
    ensures var j := WholeCount(crc, rs, n);
            var stop := |Layout(crc, rs[..j])|;
            Walk(crc, pre + Layout(crc, rs)[..n], |pre|)
            == WalkResult(Place(crc, rs[..j], |pre|), if n == stop then AtEnd else TornAt(|pre| + stop))
  {
    hide ParseRecordAt, Layout, Place, BuildRecord;
    var j := WholeCount(crc, rs, n);
    var front := Layout(crc, rs[..j]);
    LayoutCut(crc, rs, n);
    var tail := if j == |rs| then [] else BuildRecord(crc, rs[j])[..n - |front|];
    assert pre + Layout(crc, rs)[..n] == pre + front + tail;
    WalkWhole(crc, pre, rs[..j], tail);
    if j < |rs| && tail != [] {
      ParseCut(crc, pre + front, rs[j], |tail|);
      assert pre + front + tail == (pre + front) + BuildRecord(crc, rs[j])[..|tail|];
    }
  }

  // ---------------------------------------------------------------- replay

  /** The log as a plain map: a DOC record sets its key, a DEL record removes it. */
  function Effect(m: map<Key, Placed>, p: Placed): map<Key, Placed>
  {
    match DecodeIDBlob(p.rec.idBlob)
    case None => m
    case Some(k) =>
      if p.rec.typ == REC_DOC then m[k := p]
      else if p.rec.typ == REC_DEL then m - {k}
      else m
  }

  function Replay(m: map<Key, Placed>, ps: seq<Placed>): map<Key, Placed>
  {
    if ps == [] then m else Effect(Replay(m, ps[..|ps| - 1]), ps[|ps| - 1])
  }

  lemma {:induction false} ReplayAppend(m: map<Key, Placed>, a: seq<Placed>, b: seq<Placed>)
    ensures Replay(m, a + b) == Replay(Replay(m, a), b)
  {
    if b == [] {
      assert a + b == a;
    } else {
      assert (a + b)[..|a + b| - 1] == a + b[..|b| - 1];
      ReplayAppend(m, a, b[..|b| - 1]);
    }
  }

  /** The records a scan applies: all up to and including the last COMMIT. */
  function CommitCount(ps: seq<Placed>): (n: nat)
    ensures n <= |ps|
    ensures n > 0 ==> ps[n - 1].rec.typ == REC_COMMIT
    ensures forall i | n <= i < |ps| :: ps[i].rec.typ != REC_COMMIT
  {
    if ps == [] then 0
    else if ps[|ps| - 1].rec.typ == REC_COMMIT then |ps|
    else CommitCount(ps[..|ps| - 1])
  }

  predicate RecDecodable(c: Codec, r: Rec)
  {
    && (r.typ in {REC_DOC, REC_DEL, REC_IDX} ==> DecodeIDBlob(r.idBlob).Some?)
    && (r.typ == REC_META ==> c.openMeta(r.flags, r.nonce, r.ct).Some?)
    && (r.typ == REC_IDX ==> c.openIdx(r.flags, r.nonce, r.ct).Some?)
  }

  /** What decoding demands of the committed records (anything else is ErrCorrupt). */
  predicate Decodable(c: Codec, ps: seq<Placed>)
  {
    forall i | 0 <= i < |ps| :: RecDecodable(c, ps[i].rec)
  }

  function LastMeta(c: Codec, ps: seq<Placed>): Option<set<Bytes>>
  {
    if ps == [] then None
    else
      var r := ps[|ps| - 1].rec;
      if r.typ == REC_META then c.openMeta(r.flags, r.nonce, r.ct)
      else LastMeta(c, ps[..|ps| - 1])
  }

  /** Open drops the records of collections the last META no longer lists. */
  function Gate(m: map<Key, Placed>, meta: Option<set<Bytes>>): map<Key, Placed>
  {
    match meta
    case None => m
    case Some(colls) => map k | k in m && k.coll in colls :: m[k]
  }

  /** The documents by key, and the collections of the last META, when there is one. */
  datatype Recovered = Lost | Docs(entries: map<Key, Placed>, colls: Option<set<Bytes>>)

  /** The simple specification of recovery: what an open of these bytes must hold. */
  function Recover(c: Codec, data: Bytes): Recovered
  {
    var w := Walk(c.crc, data, HEADER_SIZE);
    if w.end.BadRecord? || w.end == TornAt(HEADER_SIZE) then Lost else
      var committed := w.recs[..CommitCount(w.recs)];
      if !Decodable(c, committed) then Lost
      else Docs(Gate(Replay(map[], committed), LastMeta(c, committed)), LastMeta(c, committed))
  }

  // ---------------------------------------------------------------- crash atomicity

  predicate EndsInCommit(rs: seq<Rec>) { rs != [] && rs[|rs| - 1].typ == REC_COMMIT }

  /** One flush's worth of records: a single COMMIT, at the end. */
  predicate IsBatch(rs: seq<Rec>)
  {
    EndsInCommit(rs) && forall i | 0 <= i < |rs| - 1 :: rs[i].typ != REC_COMMIT
  }

  function Committed(c: Codec, rs: seq<Rec>): Recovered
    requires AllFit(rs)
  {
    var ps := Place(c.crc, rs, HEADER_SIZE);
    if Decodable(c, ps) then Docs(Gate(Replay(map[], ps), LastMeta(c, ps)), LastMeta(c, ps)) else Lost
  }

  lemma {:induction false} CommitCountOfPrefix(ps: seq<Placed>, n: nat)
    requires n <= |ps|
    requires n > 0 ==> ps[n - 1].rec.typ == REC_COMMIT
    requires forall i | n <= i < |ps| :: ps[i].rec.typ != REC_COMMIT
    ensures CommitCount(ps) == n
  {
    if n < |ps| { CommitCountOfPrefix(ps[..|ps| - 1], n); }
  }

  /** The same count on records without places. */
  function CommittedLen(rs: seq<Rec>): (n: nat)
    ensures n <= |rs|
    ensures n > 0 ==> rs[n - 1].typ == REC_COMMIT
    ensures forall i | n <= i < |rs| :: rs[i].typ != REC_COMMIT
  {
    if rs == [] then 0
    else if rs[|rs| - 1].typ == REC_COMMIT then |rs|
    else CommittedLen(rs[..|rs| - 1])
  }

  /** The part of a log that an open believes: everything up to its last COMMIT. */
  function Sealed(log: seq<Rec>): seq<Rec> { log[..CommittedLen(log)] }

  /** No record commits what stands before it. */
  predicate Unsealed(rs: seq<Rec>) { forall i | 0 <= i < |rs| :: rs[i].typ != REC_COMMIT }

  lemma {:induction false} SealedAppend(log: seq<Rec>, more: seq<Rec>)
    requires Unsealed(more) || EndsInCommit(more)
    ensures Sealed(log + more) == if Unsealed(more) then Sealed(log) else log + more
  {
    if more == [] {
      assert log + more == log;
    } else if !EndsInCommit(more) {
      var n := |more| - 1;
      assert (log + more)[..|log| + n] == log + more[..n];
      SealedAppend(log, more[..n]);
    }
  }

  lemma CommitCountIsLen(crc: Bytes -> U32, log: seq<Rec>)
    requires AllFit(log)
    ensures CommitCount(Place(crc, log, HEADER_SIZE)) == CommittedLen(log)
  {
    hide Place, CommittedLen;
    CommitCountOfPrefix(Place(crc, log, HEADER_SIZE), CommittedLen(log));
  }

  lemma PlacePrefix(crc: Bytes -> U32, rs: seq<Rec>, n: nat, at: nat)
    requires AllFit(rs) && n <= |rs|
    ensures Place(crc, rs, at)[..n] == Place(crc, rs[..n], at)
  {
    hide Place;
    assert rs == rs[..n] + rs[n..];
    PlaceAppend(crc, rs[..n], rs[n..], at);
  }

  /** The records of a batch that are whole in its first n bytes. */
  function Kept(crc: Bytes -> U32, batch: seq<Rec>, n: nat): (kept: seq<Rec>)
    requires AllFit(batch)
    ensures AllFit(kept) && kept <= batch && |Layout(crc, kept)| <= n
    ensures kept == batch || n < |Layout(crc, batch)|
  {
    batch[..WholeCount(crc, batch, n)]
  }

  /** The records that survive a cut append, placed as the writer placed them. */
  lemma CutWalk(crc: Bytes -> U32, header: Bytes, log: seq<Rec>, batch: seq<Rec>, n: nat)
    requires |header| == HEADER_SIZE
    requires AllFit(log) && AllFit(batch) && n <= |Layout(crc, batch)|
    ensures AllFit(log + Kept(crc, batch, n))
    ensures var kept := Kept(crc, batch, n);
            var w := Walk(crc, header + Layout(crc, log) + Layout(crc, batch)[..n], HEADER_SIZE);
            && w.recs == Place(crc, log + kept, HEADER_SIZE)
            && w.end == (if n == |Layout(crc, kept)| then AtEnd
                         else TornAt(HEADER_SIZE + |Layout(crc, log + kept)|))
  {
    hide Layout, Place, Walk;
    var all := log + batch;
    var m := |Layout(crc, log)| + n;
    LayoutAppend(crc, log, batch);
    assert header + Layout(crc, log) + Layout(crc, batch)[..n] == header + Layout(crc, all)[..m];
    WalkCut(crc, header, all, m);
    CutKeepsLog(crc, log, batch, n);
    assert all[..WholeCount(crc, all, m)] == log + Kept(crc, batch, n);
    LayoutAppend(crc, log, Kept(crc, batch, n));
  }

  lemma CutKeepsLog(crc: Bytes -> U32, log: seq<Rec>, batch: seq<Rec>, n: nat)
    requires AllFit(log) && AllFit(batch) && n <= |Layout(crc, batch)|
    ensures WholeCount(crc, log + batch, |Layout(crc, log)| + n) == |log| + WholeCount(crc, batch, n)
  {
    hide Layout;
    var all, k := log + batch, WholeCount(crc, batch, n);
    var m := |Layout(crc, log)| + n;
    LayoutAppend(crc, log, batch);
    LayoutAppend(crc, log, batch[..k]);
    assert all[..|log| + k] == log + batch[..k];
    if k < |batch| {
      LayoutAppend(crc, log, batch[..k + 1]);
      assert all[..|log| + k + 1] == log + batch[..k + 1];
    }
    OnlyOneCount(crc, all, m, |log| + k);
  }

  lemma OnlyOneCount(crc: Bytes -> U32, rs: seq<Rec>, n: nat, k: nat)
    requires AllFit(rs) && k <= |rs| && |Layout(crc, rs[..k])| <= n
    requires k < |rs| ==> n < |Layout(crc, rs[..k + 1])|
    ensures WholeCount(crc, rs, n) == k
  {
    hide Layout;
    var j := WholeCount(crc, rs, n);
    if j < k { LayoutMonotone(crc, rs, j + 1, k); }
    if k < j { LayoutMonotone(crc, rs, k + 1, j); }
  }

  /** Whatever a log ends in and wherever an append to it is cut, a scan recovers
      what the records now in the file say up to the last COMMIT among them. */
  lemma CutRecovers(c: Codec, header: Bytes, log: seq<Rec>, batch: seq<Rec>, n: nat)
    requires |header| == HEADER_SIZE && AllFit(log) && AllFit(batch) && Sealed(log) != []
    requires n <= |Layout(c.crc, batch)|
    ensures AllFit(Sealed(log + Kept(c.crc, batch, n)))
    ensures Recover(c, header + Layout(c.crc, log) + Layout(c.crc, batch)[..n])
            == Committed(c, Sealed(log + Kept(c.crc, batch, n)))
  {
    hide Layout, Replay, LastMeta, Gate, Decodable, Place, Walk, CommitCount, CommittedLen;
    var all := log + Kept(c.crc, batch, n);
    CutWalk(c.crc, header, log, batch, n);
    CommitCountIsLen(c.crc, all);
    PlacePrefix(c.crc, all, CommittedLen(all), HEADER_SIZE);
    assert all != [];
    NonEmptyLayout(c.crc, all);
  }

  /** Cutting an append anywhere leaves exactly the state before the batch or the
      state after it, with every record at the offset its writer assigned. */
  lemma CrashAtomicity(c: Codec, header: Bytes, base: seq<Rec>, batch: seq<Rec>, n: nat)
    requires |header| == HEADER_SIZE
    requires AllFit(base) && AllFit(batch) && EndsInCommit(base) && IsBatch(batch)
    requires n <= |Layout(c.crc, batch)|
    ensures Recover(c, header + Layout(c.crc, base) + Layout(c.crc, batch)[..n])
            == Committed(c, if n == |Layout(c.crc, batch)| then base + batch else base)
  {
    hide Layout, Recover, Committed, Sealed, Kept;
    SealedWhole(base);
    CutRecovers(c, header, base, batch, n);
    KeptOfBatch(c.crc, batch, n);
    SealedAppend(base, Kept(c.crc, batch, n));
  }

  /** A log that ends in a COMMIT is believed whole. */
  lemma SealedWhole(rs: seq<Rec>)
    requires EndsInCommit(rs)
    ensures Sealed(rs) == rs
  {
  }

  /** Of a batch either all records are kept, or some of those before its COMMIT. */
  lemma KeptOfBatch(crc: Bytes -> U32, batch: seq<Rec>, n: nat)
    requires AllFit(batch) && IsBatch(batch) && n <= |Layout(crc, batch)|
    ensures if n == |Layout(crc, batch)| then Kept(crc, batch, n) == batch && EndsInCommit(Kept(crc, batch, n))
            else Unsealed(Kept(crc, batch, n)) && |Kept(crc, batch, n)| < |batch|
  {
    hide Layout;
    var k := WholeCount(crc, batch, n);
    assert batch[..|batch|] == batch;
  }

  /** The walk over an undamaged file, up to the last COMMIT. */
  lemma SealedWalk(crc: Bytes -> U32, header: Bytes, log: seq<Rec>)
    requires |header| == HEADER_SIZE && AllFit(log)
    ensures AllFit(Sealed(log))
    ensures var w := Walk(crc, header + Layout(crc, log), HEADER_SIZE);
            && w.end == AtEnd && CommitCount(w.recs) == |Sealed(log)|
            && w.recs[..CommitCount(w.recs)] == Place(crc, Sealed(log), HEADER_SIZE)
  {
    hide Walk, Layout, Place, CommitCount, CommittedLen;
    CutWalk(crc, header, log, [], 0);
    EmptyLayout(crc);
    assert log + Kept(crc, [], 0) == log;
    assert header + Layout(crc, log) + [] == header + Layout(crc, log);
    CommitCountIsLen(crc, log);
    PlacePrefix(crc, log, CommittedLen(log), HEADER_SIZE);
  }

  /** A whole log that ends in a COMMIT recovers everything it says. */
  lemma RecoverWhole(c: Codec, header: Bytes, rs: seq<Rec>)
    requires |header| == HEADER_SIZE && AllFit(rs) && EndsInCommit(rs)
    ensures Recover(c, header + Layout(c.crc, rs)) == Committed(c, rs)
  {
    hide Recover, Committed, Sealed;
    SealedWhole(rs);
    RecoverSealed(c, header, rs);
  }

  /** An undamaged file recovers what its log says up to the last COMMIT. */
  lemma RecoverSealed(c: Codec, header: Bytes, log: seq<Rec>)
    requires |header| == HEADER_SIZE && AllFit(log) && Sealed(log) != []
    ensures AllFit(Sealed(log)) && Recover(c, header + Layout(c.crc, log)) == Committed(c, Sealed(log))
  {
    hide Recover, Committed, Sealed;
    CutRecovers(c, header, log, [], 0);
    EmptyLayout(c.crc);
    assert log + Kept(c.crc, [], 0) == log;
    assert header + Layout(c.crc, log) + [] == header + Layout(c.crc, log);
  }

  lemma NonEmptyLayout(crc: Bytes -> U32, rs: seq<Rec>)
    requires AllFit(rs) && rs != []
    ensures |Layout(crc, rs)| > 0
  {
  }

  lemma LayoutMonotone(crc: Bytes -> U32, rs: seq<Rec>, i: nat, j: nat)
    requires AllFit(rs) && i <= j <= |rs|
    ensures |Layout(crc, rs[..i])| <= |Layout(crc, rs[..j])|
    ensures i < j ==> |Layout(crc, rs[..i])| < |Layout(crc, rs[..j])|
  {
    if i < j {
      LayoutMonotone(crc, rs, i, j - 1);
      assert rs[..j][..j - 1] == rs[..j - 1];
    }
  }
}
