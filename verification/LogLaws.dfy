/** What a record log says, in terms of its bytes and of the positions of its records,
    and what it refuses. */
module LogLaws {
  import opened ByteCodec
  import opened Values
  import opened RecordLog
  import opened TornTail

  /** The format: type, flags, two length fields, nonce and checksum, then id blob and
      payload. The checksum covers everything but itself. */
  lemma RecordBytes(crc: Bytes -> U32, r: Rec)
    requires r.Fits()
    ensures var b := BuildRecord(crc, r);
            var n, m := |r.idBlob|, |r.ct|;
            var sum := crc(b[..20] + b[24..]);
            && b[..2] == [r.typ, r.flags] && b[2..4] == [n % 256, n / 256]
            && b[4..8] == [m % 256, m / 256 % 256, m / 0x1_0000 % 256, m / 0x100_0000]
            && b[8..20] == r.nonce
            && b[20..24] == [sum % 256, sum / 256 % 256, sum / 0x1_0000 % 256, sum / 0x100_0000]
            && b[24..24 + n] == r.idBlob && b[24 + n..] == r.ct
  {
    hide LE;
    var b := BuildRecord(crc, r);
    LittleEndian(|r.idBlob|);
    LittleEndian(|r.ct|);
    LittleEndian(crc(Header20(r) + r.idBlob + r.ct));
    assert b[..20] == Header20(r);
    assert b[24..] == r.idBlob + r.ct;
    assert b[..20] + b[24..] == Header20(r) + r.idBlob + r.ct;
  }

  /** The bytes of an operation: its type, and for all but META and COMMIT the length of
      the collection name, most significant byte first, the name and the id. */
  lemma IDBlobBytes(coll: Bytes, id: Bytes)
    requires |coll| <= 0xffff
    ensures EncodeIDBlob(coll, id) == [|coll| / 256, |coll| % 256] + coll + id
  {
  }

  // ---------------------------------------------------------------- what parses

  /** The lengths and the checksum a record claims, read off its bytes. */
  function Claimed(b: Bytes): (n: nat)
    requires |b| >= 24
  {
    24 + Word(b[2], b[3]) + DoubleWord(b[4], b[5], b[6], b[7])
  }

  function StoredSum(b: Bytes): nat
    requires |b| >= 24
  {
    DoubleWord(b[20], b[21], b[22], b[23])
  }

  lemma ReadsClaims(crc: Bytes -> U32, data: Bytes, off: nat)
    ensures off + 24 > |data| ==> ParseRecordAt(crc, data, off).Torn?
    ensures off + 24 <= |data| ==>
              var total := Claimed(data[off..off + 24]);
              var p := ParseRecordAt(crc, data, off);
              && (p.Torn? <==> off + total > |data|)
              && (off + total <= |data| ==>
                    (p.Corrupt? <==>
                     StoredSum(data[off..off + 24]) != crc(data[off..off + 20] + data[off + 24..off + total])))
              && (p.Whole? ==> p.total == total)
  {
    if off + 24 <= |data| {
      var h := data[off..off + 24];
      UnLittleEndian(h[2..4]);
      UnLittleEndian(h[4..8]);
      UnLittleEndian(h[20..24]);
      var idLen, total := UnLE(h[2..4]), Claimed(h);
      if off + total <= |data| {
        var id, ct := data[off + 24..off + 24 + idLen], data[off + 24 + idLen..off + total];
        assert data[off..off + 20] + id + ct == data[off..off + 20] + data[off + 24..off + total];
      }
    }
  }

  /** A record is read exactly where its bytes lie: nothing else parses. */
  lemma WholeExact(crc: Bytes -> U32, data: Bytes, off: nat, r: Rec, total: nat)
    ensures ParseRecordAt(crc, data, off) == Whole(r, total)
            <==> && r.Fits() && total == |BuildRecord(crc, r)|
                 && off + total <= |data| && data[off..off + total] == BuildRecord(crc, r)
  {
    if r.Fits() && total == |BuildRecord(crc, r)| && off + total <= |data|
       && data[off..off + total] == BuildRecord(crc, r) {
      ParseBuilt(crc, data[..off], r, data[off + total..]);
      assert data[..off] + BuildRecord(crc, r) + data[off + total..] == data;
    }
    if ParseRecordAt(crc, data, off) == Whole(r, total) { WholeIsBuilt(crc, data, off, r, total); }
  }

  lemma WholeIsBuilt(crc: Bytes -> U32, data: Bytes, off: nat, r: Rec, total: nat)
    requires ParseRecordAt(crc, data, off) == Whole(r, total)
    ensures r.Fits() && off + total <= |data| && data[off..off + total] == BuildRecord(crc, r)
  {
    hide LE, UnLE;
    var b := data[off..off + total];
    var h := data[off..off + 24];
    UnLERoundTrip(h[2..4]);
    UnLERoundTrip(h[4..8]);
    UnLERoundTrip(h[20..24]);
    assert h[..20] == Header20(r) by {
      assert h[..20] == [h[0], h[1]] + h[2..4] + h[4..8] + h[8..20];
    }
    assert data[off..off + 20] == h[..20];
    assert b == h[..20] + h[20..24] + r.idBlob + r.ct;
  }

  // ---------------------------------------------------------------- damage

  /** As long as its lengths say, and with a checksum that does not cover it. */
  predicate Damaged(crc: Bytes -> U32, b: Bytes)
  {
    |b| >= 24 && |b| == Claimed(b) && StoredSum(b) != crc(b[..20] + b[24..])
  }

  lemma DamageIsCorrupt(crc: Bytes -> U32, pre: Bytes, bad: Bytes, post: Bytes)
    requires Damaged(crc, bad)
    ensures ParseRecordAt(crc, pre + bad + post, |pre|) == Corrupt
  {
    hide ParseRecordAt;
    var data, off := pre + bad + post, |pre|;
    ReadsClaims(crc, data, off);
    assert data[off..off + |bad|] == bad;
    assert data[off..off + 24] == bad[..24] && data[off..off + 20] == bad[..20];
    assert data[off + 24..off + |bad|] == bad[24..];
  }

  /** A file with a damaged record in it is refused as a whole, whatever stands before
      and behind. */
  lemma DamageRefused(c: Codec, header: Bytes, log: seq<Rec>, bad: Bytes, post: Bytes)
    requires |header| == HEADER_SIZE && AllFit(log) && Damaged(c.crc, bad)
    ensures Recover(c, header + Layout(c.crc, log) + bad + post) == Lost
  {
    hide Layout, ParseRecordAt, Damaged;
    var data := header + Layout(c.crc, log) + bad + post;
    assert data == header + Layout(c.crc, log) + (bad + post);
    WalkWhole(c.crc, header, log, bad + post);
    DamageIsCorrupt(c.crc, header + Layout(c.crc, log), bad, post);
    DamageHasBytes(c.crc, bad);
  }

  /** A record that claims more bytes than follow is taken for the end of a torn append,
      whatever made it so. The open succeeds with what stands before it, and the records
      behind it are lost, committed ones included. */
  lemma LongClaimCuts(c: Codec, header: Bytes, log: seq<Rec>, bad: Bytes)
    requires |header| == HEADER_SIZE && AllFit(log) && log != []
    requires |bad| >= 24 && Claimed(bad[..24]) > |bad|
    ensures Recover(c, header + Layout(c.crc, log) + bad) == Recover(c, header + Layout(c.crc, log))
  {
    hide Layout, Walk, Claimed, Place, Decodable, Replay, LastMeta, CommitCount;
    LogHasBytes(c.crc, log);
    LongClaimEnds(c.crc, header + Layout(c.crc, log), bad);
    WalkWhole(c.crc, header, log, bad);
    WalkWhole(c.crc, header, log, []);
    WalkEnds(c.crc, header + Layout(c.crc, log));
    assert header + Layout(c.crc, log) + [] == header + Layout(c.crc, log);
    assert Place(c.crc, log, |header|) + [] == Place(c.crc, log, |header|);
  }

  lemma LongClaimEnds(crc: Bytes -> U32, pre: Bytes, bad: Bytes)
    requires |bad| >= 24 && Claimed(bad[..24]) > |bad|
    ensures Walk(crc, pre + bad, |pre|) == WalkResult([], TornAt(|pre|))
  {
    hide ParseRecordAt, Claimed;
    assert (pre + bad)[|pre|..|pre| + 24] == bad[..24];
    ReadsClaims(crc, pre + bad, |pre|);
  }

  lemma WalkEnds(crc: Bytes -> U32, data: Bytes)
    ensures Walk(crc, data, |data|) == WalkResult([], AtEnd)
  {
  }

  lemma LogHasBytes(crc: Bytes -> U32, log: seq<Rec>)
    requires AllFit(log) && log != []
    ensures |Layout(crc, log)| > 0
  {
    hide BuildRecord;
    assert |BuildRecord(crc, log[|log| - 1])| > 0;
  }

  lemma DamageHasBytes(crc: Bytes -> U32, bad: Bytes)
    requires Damaged(crc, bad)
    ensures |bad| >= 24
  {
  }

  /** One byte of a record changed, outside its length fields: damaged whenever the byte
      belongs to the checksum, and otherwise exactly when the checksum tells. */
  lemma ChangedByte(crc: Bytes -> U32, r: Rec, i: nat, x: Byte)
    requires r.Fits() && i < |BuildRecord(crc, r)| && (i < 2 || 8 <= i) && x != BuildRecord(crc, r)[i]
    ensures var b := BuildRecord(crc, r);
            var bad := b[i := x];
            Damaged(crc, bad) <==> 20 <= i < 24 || crc(bad[..20] + bad[24..]) != crc(b[..20] + b[24..])
  {
    var b := BuildRecord(crc, r);
    var bad := b[i := x];
    RecordBytes(crc, r);
    hide BuildRecord;
    ClaimedIs(b, |r.idBlob|, |r.ct|);
    ClaimedIs(bad, |r.idBlob|, |r.ct|);
    SumIs(b, crc(b[..20] + b[24..]));
    if 20 <= i < 24 {
      assert bad[..20] == b[..20] && bad[24..] == b[24..];
    } else {
      assert bad[20..24] == b[20..24];
      SumIs(bad, crc(b[..20] + b[24..]));
    }
  }

  lemma ClaimedIs(b: Bytes, n: nat, m: nat)
    requires |b| >= 24 && n <= 0xffff && m <= 0xffff_ffff
    requires b[2] == n % 256 && b[3] == n / 256
    requires b[4] == m % 256 && b[5] == m / 256 % 256 && b[6] == m / 0x1_0000 % 256 && b[7] == m / 0x100_0000
    ensures Claimed(b) == 24 + n + m
  {
    SpelledOut(n);
    SpelledOut(m);
  }

  lemma SumIs(b: Bytes, sum: U32)
    requires |b| >= 24
    requires b[20..24] == [sum % 256, sum / 256 % 256, sum / 0x1_0000 % 256, sum / 0x100_0000]
    ensures StoredSum(b) == sum
  {
    SpelledOut(sum);
    assert b[20..24][0] == b[20] && b[20..24][1] == b[21] && b[20..24][2] == b[22] && b[20..24][3] == b[23];
  }

  // ---------------------------------------------------------------- what the records say

  /** Record i is the document of this key: no document (type 1) or deletion (type 4) of
      the key follows among the first n. */
  predicate IsLastDoc(log: seq<Rec>, n: nat, k: Key, i: nat)
  {
    && i < n <= |log| && log[i].typ == 1 && DecodeIDBlob(log[i].idBlob) == Some(k)
    && forall j | i < j < n :: DecodeIDBlob(log[j].idBlob) == Some(k) ==> log[j].typ != 1 && log[j].typ != 4
  }

  /** Record i is the META (type 2) that counts among the first n. */
  predicate IsLastMeta(log: seq<Rec>, n: nat, i: nat)
  {
    i < n <= |log| && log[i].typ == 2 && forall j | i < j < n :: log[j].typ != 2
  }

  /** An id that does not decode in a document, an index (type 3) or a deletion, or a META
      or index that does not open. */
  predicate Spoilt(c: Codec, r: Rec)
  {
    || (r.typ in {1, 3, 4} && DecodeIDBlob(r.idBlob) == None)
    || (r.typ == 2 && c.openMeta(r.flags, r.nonce, r.ct) == None)
    || (r.typ == 3 && c.openIdx(r.flags, r.nonce, r.ct) == None)
  }

  /** Where the believed part of a log ends: right behind the last COMMIT (type 5). */
  predicate BelievedTo(log: seq<Rec>, n: nat)
  {
    n <= |log| && (n > 0 ==> log[n - 1].typ == 5) && forall i | n <= i < |log| :: log[i].typ != 5
  }

  /** Behind the header of 152 bytes and the records before it. */
  predicate PlacedAt(crc: Bytes -> U32, log: seq<Rec>, i: nat, p: Placed)
    requires AllFit(log)
  {
    i < |log| && p == Placed(log[i], 152 + |Layout(crc, log[..i])|, |BuildRecord(crc, log[i])|)
  }

  /** The entries say which keys end in a document, and where it lies. */
  ghost predicate EntriesSay(crc: Bytes -> U32, log: seq<Rec>, n: nat, m: map<Key, Placed>)
    requires AllFit(log)
  {
    && (forall k <- m :: exists i: nat :: IsLastDoc(log, n, k, i))
    && (forall k: Key, i: nat | IsLastDoc(log, n, k, i) :: k in m && PlacedAt(crc, log, i, m[k]))
  }

  ghost predicate MetaSays(c: Codec, log: seq<Rec>, n: nat, colls: Option<set<Bytes>>)
  {
    && ((forall i: nat :: !IsLastMeta(log, n, i)) ==> colls == None)
    && (forall i: nat | IsLastMeta(log, n, i) :: colls == c.openMeta(log[i].flags, log[i].nonce, log[i].ct))
  }

  /** An undamaged file recovers to what its records say: it is refused exactly when one
      below the last COMMIT is spoilt, and otherwise holds each key whose last word is a
      document, at the place of that record, if the last META lists its collection.
      Records of other types say nothing. */
  lemma RecoverExact(c: Codec, header: Bytes, log: seq<Rec>, n: nat)
    requires |header| == 152 && AllFit(log) && BelievedTo(log, n)
    ensures var r := Recover(c, header + Layout(c.crc, log));
            && (r.Lost? <==> exists i | 0 <= i < n :: Spoilt(c, log[i]))
            && (r.Docs? ==>
                  && MetaSays(c, log, n, r.colls)
                  && exists all :: EntriesSay(c.crc, log, n, all) && Lists(r.entries, all, r.colls))
  {
    hide Walk, Layout, Place, CommitCount, Replay, LastMeta, CommittedLen, DecodeIDBlob, IsLastDoc, IsLastMeta,
      RecDecodable, Spoilt, PlacedAt, BelievedTo, EntriesSay, MetaSays;
    SealedWalk(c.crc, header, log);
    BelievedLen(log, n);
    var ps := Place(c.crc, log[..n], HEADER_SIZE);
    forall i | 0 <= i < n
      ensures Spoilt(c, log[i]) <==> !RecDecodable(c, ps[i].rec)
    {
      SpoiltIs(c, log[i]);
    }
    MetaExact(c, log, n);
    ReplayExact(c, log, n);
    assert Lists(Gate(Replay(map[], ps), LastMeta(c, ps)), Replay(map[], ps), LastMeta(c, ps));
  }

  /** Those of the collections listed, all of them when there is no list. */
  predicate Lists(m: map<Key, Placed>, all: map<Key, Placed>, colls: Option<set<Bytes>>)
  {
    && (forall k <- m :: k in all && m[k] == all[k] && (colls == None || k.coll in colls.value))
    && (forall k <- all :: colls == None || k.coll in colls.value ==> k in m)
  }

  lemma BelievedLen(log: seq<Rec>, n: nat)
    requires BelievedTo(log, n)
    ensures CommittedLen(log) == n && Sealed(log) == log[..n]
  {
  }

  lemma SpoiltIs(c: Codec, r: Rec)
    ensures Spoilt(c, r) <==> !RecDecodable(c, r)
  {
    hide DecodeIDBlob;
  }

  lemma {:induction false} ReplayExact(c: Codec, log: seq<Rec>, n: nat)
    requires AllFit(log) && n <= |log|
    ensures EntriesSay(c.crc, log, n, Replay(map[], Place(c.crc, log[..n], HEADER_SIZE)))
  {
    hide DecodeIDBlob, Layout, BuildRecord, PlacedAt, IsLastDoc, Place, Replay, Acts;
    var q := Replay(map[], Place(c.crc, log[..n], HEADER_SIZE));
    if n == 0 {
      assert log[..0] == [];
      NothingPlaced(c.crc);
    } else {
      ReplayExact(c, log, n - 1);
    }
    forall k | k in q
      ensures exists i: nat :: IsLastDoc(log, n, k, i)
    {
      LastPlaced(c, log, n, k);
      var was := n - 1;
      var i: nat := if Acts(log[was], k) then was else var j: nat :| IsLastDoc(log, was, k, j); j;
      LastDocStep(log, n, k, i);
      assert IsLastDoc(log, n, k, i);
    }
    forall k: Key, i: nat | IsLastDoc(log, n, k, i)
      ensures k in q && PlacedAt(c.crc, log, i, q[k])
    {
      LastDocStep(log, n, k, i);
      LastPlaced(c, log, n, k);
    }
  }

  lemma NothingPlaced(crc: Bytes -> U32)
    ensures Replay(map[], Place(crc, [], HEADER_SIZE)) == map[]
  {
  }

  /** The record is a document or a deletion of this key. */
  predicate Acts(r: Rec, k: Key) { DecodeIDBlob(r.idBlob) == Some(k) && (r.typ == 1 || r.typ == 4) }

  lemma LastDocStep(log: seq<Rec>, n: nat, k: Key, i: nat)
    requires n <= |log|
    ensures n > 0 ==>
              (IsLastDoc(log, n, k, i) <==>
               if Acts(log[n - 1], k) then i == n - 1 && log[n - 1].typ == 1 else IsLastDoc(log, n - 1, k, i))
    ensures n == 0 ==> !IsLastDoc(log, n, k, i)
  {
    hide DecodeIDBlob;
  }

  /** What the last record does to one key. */
  lemma LastPlaced(c: Codec, log: seq<Rec>, n: nat, k: Key)
    requires AllFit(log) && 0 < n <= |log|
    ensures var m := Replay(map[], Place(c.crc, log[..n - 1], HEADER_SIZE));
            var q := Replay(map[], Place(c.crc, log[..n], HEADER_SIZE));
            && (k in q <==> if Acts(log[n - 1], k) then log[n - 1].typ == 1 else k in m)
            && (k in q ==> if Acts(log[n - 1], k) then PlacedAt(c.crc, log, n - 1, q[k]) else q[k] == m[k])
  {
    hide DecodeIDBlob, Layout, BuildRecord;
    assert log[..n][..n - 1] == log[..n - 1];
    var ps := Place(c.crc, log[..n], HEADER_SIZE);
    assert ps[..n - 1] == Place(c.crc, log[..n - 1], HEADER_SIZE);
  }

  lemma {:induction false} MetaExact(c: Codec, log: seq<Rec>, n: nat)
    requires AllFit(log) && n <= |log|
    ensures MetaSays(c, log, n, LastMeta(c, Place(c.crc, log[..n], HEADER_SIZE)))
  {
    hide Place, LastMeta, IsLastMeta;
    if n > 0 {
      MetaExact(c, log, n - 1);
      MetaPlaced(c, log, n);
      var meta := LastMeta(c, Place(c.crc, log[..n], HEADER_SIZE));
      if forall i: nat :: !IsLastMeta(log, n, i) {
        var m := n - 1;
        LastMetaStep(log, n, m);
        forall i: nat
          ensures !IsLastMeta(log, m, i)
        {
          LastMetaStep(log, n, i);
        }
        assert meta == None;
      }
      forall i: nat | IsLastMeta(log, n, i)
        ensures i < |log| && meta == c.openMeta(log[i].flags, log[i].nonce, log[i].ct)
      {
        LastMetaStep(log, n, i);
        MetaInLog(log, n, i);
      }
    } else {
      assert log[..0] == [];
      NoMeta(c, log);
    }
  }

  lemma NoMeta(c: Codec, log: seq<Rec>)
    ensures LastMeta(c, Place(c.crc, [], HEADER_SIZE)) == None && forall i: nat :: !IsLastMeta(log, 0, i)
  {
  }

  lemma MetaInLog(log: seq<Rec>, n: nat, i: nat)
    requires IsLastMeta(log, n, i)
    ensures i < n <= |log| && log[i].typ == 2
  {
  }

  lemma LastMetaStep(log: seq<Rec>, n: nat, i: nat)
    requires 0 < n <= |log|
    ensures IsLastMeta(log, n, i) <==> if log[n - 1].typ == 2 then i == n - 1 else IsLastMeta(log, n - 1, i)
  {
  }

  lemma MetaPlaced(c: Codec, log: seq<Rec>, n: nat)
    requires AllFit(log) && 0 < n <= |log|
    ensures LastMeta(c, Place(c.crc, log[..n], HEADER_SIZE))
            == var r := log[n - 1];
               if r.typ == 2 then c.openMeta(r.flags, r.nonce, r.ct)
               else LastMeta(c, Place(c.crc, log[..n - 1], HEADER_SIZE))
  {
    hide Layout, BuildRecord;
    assert log[..n][..n - 1] == log[..n - 1];
    var ps := Place(c.crc, log[..n], HEADER_SIZE);
    assert ps[..n - 1] == Place(c.crc, log[..n - 1], HEADER_SIZE);
  }
}
