/** The flat view of an index: its ordered keys and their ids in compressed sparse
    row form, as it is persisted and searched. */
module Csr {
  import opened ByteCodec
  import opened SortedLists
  import opened IndexKeys
  import opened KeyMaps

  datatype Body = Body(keys: seq<Bytes>, vals: seq<KeyVal>, indptr: seq<int>, indices: seq<int>, ids: seq<Bytes>)
  datatype Matrix = Matrix(body: Body, checksum: int)

  // ---------------------------------------------------------------- validity

  predicate StepUp(b: Body, i: nat)
    requires 0 < i < |b.indptr|
  {
    b.indptr[i - 1] <= b.indptr[i]
  }

  /** What a loaded matrix is checked for, the checksum last. */
  predicate Accepted(m: Matrix, crc: Body -> int)
  {
    var b := m.body;
    && |b.indptr| != 0 && b.indptr[0] == 0 && |b.indptr| == |b.keys| + 1
    && |b.vals| == |b.keys|
    && b.indptr[|b.indptr| - 1] == |b.indices|
    && (forall i | 0 < i < |b.indptr| :: StepUp(b, i))
    && (forall j | 0 <= j < |b.indices| :: 0 <= b.indices[j] < |b.ids|)
    && m.checksum == crc(b)
  }

  method Check(m: Matrix, crc: Body -> int) returns (ok: bool)
    ensures ok == Accepted(m, crc)
  {
    var b := m.body;
    if |b.indptr| == 0 { return false; }
    if b.indptr[0] != 0 || |b.indptr| != |b.keys| + 1 { return false; }
    if |b.vals| != |b.keys| { return false; }
    var last := b.indptr[|b.indptr| - 1];
    if last != |b.indices| { return false; }
    for i := 1 to |b.indptr|
      invariant forall j | 0 < j < i :: StepUp(b, j)
    {
      if b.indptr[i] < b.indptr[i - 1] {
        assert !StepUp(b, i);
        return false;
      }
    }
    for j := 0 to |b.indices|
      invariant forall k | 0 <= k < j :: 0 <= b.indices[k] < |b.ids|
    {
      if b.indices[j] < 0 || b.indices[j] >= |b.ids| { return false; }
    }
    ok := m.checksum == crc(b);
  }

  predicate RowSpan(b: Body, i: nat)
  {
    i + 1 < |b.indptr| && 0 <= b.indptr[i] <= b.indptr[i + 1] <= |b.indices|
  }

  predicate ColumnsIn(b: Body)
  {
    forall j | 0 <= j < |b.indices| :: 0 <= b.indices[j] < |b.ids|
  }

  /** Every access to the matrix is in bounds. */
  predicate Safe(b: Body)
  {
    && |b.indptr| == |b.keys| + 1 && |b.vals| == |b.keys|
    && b.indptr[0] == 0 && b.indptr[|b.keys|] == |b.indices|
    && (forall i | 0 <= i < |b.keys| :: RowSpan(b, i))
    && ColumnsIn(b)
  }

  lemma {:induction false} StepsClimb(b: Body, i: nat, j: nat)
    requires i <= j < |b.indptr| && forall k | 0 < k < |b.indptr| :: StepUp(b, k)
    ensures b.indptr[i] <= b.indptr[j]
    decreases j
  {
    if i < j {
      StepsClimb(b, i, j - 1);
      assert StepUp(b, j);
    }
  }

  /** An accepted matrix can be read anywhere without a bounds check. */
  lemma AcceptedIsSafe(m: Matrix, crc: Body -> int)
    requires Accepted(m, crc)
    ensures Safe(m.body)
  {
    var b := m.body;
    forall i | 0 <= i < |b.keys|
      ensures RowSpan(b, i)
    {
      StepsClimb(b, 0, i);
      StepsClimb(b, i, i + 1);
      StepsClimb(b, i + 1, |b.keys|);
    }
  }

  lemma SafeIsAccepted(b: Body, crc: Body -> int)
    requires Safe(b)
    ensures Accepted(Matrix(b, crc(b)), crc)
  {
    forall i | 0 < i < |b.indptr|
      ensures StepUp(b, i)
    {
      assert RowSpan(b, i - 1);
    }
  }

  // ---------------------------------------------------------------- contents

  /** The ids the cells stand for, all rows in one list. */
  function Cells(b: Body): (c: seq<Bytes>)
    requires ColumnsIn(b)
    ensures |c| == |b.indices|
  {
    seq(|b.indices|, j requires 0 <= j < |b.indices| => b.ids[b.indices[j]])
  }

  function RowIds(b: Body, i: nat): seq<Bytes>
    requires ColumnsIn(b) && RowSpan(b, i)
  {
    Cells(b)[b.indptr[i]..b.indptr[i + 1]]
  }

  function Owners(km: KeyMap, k: Bytes): set<Bytes> { if k in km then km[k] else {} }

  ghost predicate RowMirrors(b: Body, ord: seq<OrdEntry>, km: KeyMap, i: nat)
    requires ColumnsIn(b) && i < |ord|
  {
    && i < |b.keys| && i < |b.vals| && RowSpan(b, i)
    && b.keys[i] == ord[i].key && b.vals[i] == ord[i].val
    && SortsSet(RowIds(b, i), Owners(km, ord[i].key))
  }

  /** The matrix says row by row what the ordered list and the key map say. */
  ghost predicate Mirrors(b: Body, ord: seq<OrdEntry>, km: KeyMap)
  {
    Safe(b) && |b.keys| == |ord| && forall i | 0 <= i < |ord| :: RowMirrors(b, ord, km, i)
  }

  lemma {:induction false} LeastExists(s: set<Bytes>) returns (x: Bytes)
    requires s != {}
    ensures x in s && forall y <- s :: y == x || Less(x, y)
    decreases |s|
  {
    var z :| z in s;
    if s - {z} == {} {
      x := z;
      assert forall y <- s :: y == x || y in s - {z};
    } else {
      var w := LeastExists(s - {z});
      if Less(z, w) {
        x := z;
        forall y | y in s && y != x
          ensures Less(x, y)
        {
          if y != w { LessTransitive(z, w, y); }
        }
      } else {
        x := w;
        LessConnected(z, w);
      }
    }
  }

  lemma SortedExists(s: set<Bytes>) returns (r: seq<Bytes>)
    ensures SortsSet(r, s)
    decreases |s|
  {
    if s == {} {
      r := [];
    } else {
      var x := LeastExists(s);
      var rest := SortedExists(s - {x});
      r := [x] + rest;
      forall i | 0 <= i < |r|
        ensures r[i] in s
      {
        if i > 0 { assert r[i] == rest[i - 1]; }
      }
      forall i, j | 0 <= i < j < |r|
        ensures Less(r[i], r[j])
      {
        assert r[j] == rest[j - 1] && rest[j - 1] in s - {x};
        if i > 0 { assert r[i] == rest[i - 1]; }
      }
    }
  }

  /** The members of a set in ascending order. */
  ghost function SortedIds(s: set<Bytes>): (r: seq<Bytes>)
    ensures SortsSet(r, s)
  {
    var w := SortedWitness(s);
    w
  }

  ghost function SortedWitness(s: set<Bytes>): (r: seq<Bytes>)
    ensures SortsSet(r, s)
  {
    assert exists r :: SortsSet(r, s) by { var r := SortedExists(s); }
    var r :| SortsSet(r, s);
    r
  }

  lemma SortsSetUnique(a: seq<Bytes>, s: set<Bytes>)
    requires SortsSet(a, s)
    ensures a == SortedIds(s)
  {
    hide Less;
    var b := SortedIds(s);
    forall x: Bytes
      ensures x in a <==> x in b
    {
    }
    AscendingUnique(a, b);
  }

  /** The ids under the listed keys: key by key, each key's ids ascending. */
  ghost function Flatten(ents: seq<OrdEntry>, km: KeyMap): seq<Bytes>
  {
    if ents == [] then []
    else Flatten(ents[..|ents| - 1], km) + SortedIds(Owners(km, ents[|ents| - 1].key))
  }

  /** A stretch of cells is the stretch of keys it mirrors, flattened. */
  lemma {:induction false} CellsAreFlat(b: Body, ord: seq<OrdEntry>, km: KeyMap, lo: nat, hi: nat)
    requires Mirrors(b, ord, km) && lo <= hi <= |ord|
    ensures 0 <= b.indptr[lo] <= b.indptr[hi] <= |b.indices|
    ensures Cells(b)[b.indptr[lo]..b.indptr[hi]] == Flatten(ord[lo..hi], km)
    decreases hi
  {
    hide SortsSet, Owners;
    if lo < |ord| { assert RowSpan(b, lo); } else { assert lo == 0 || RowSpan(b, lo - 1); }
    if lo < hi {
      CellsAreFlat(b, ord, km, lo, hi - 1);
      assert RowMirrors(b, ord, km, hi - 1);
      SortsSetUnique(RowIds(b, hi - 1), Owners(km, ord[hi - 1].key));
      var c, mid := Cells(b), b.indptr[hi - 1];
      assert c[b.indptr[lo]..b.indptr[hi]] == c[b.indptr[lo]..mid] + c[mid..b.indptr[hi]];
      assert ord[lo..hi][..hi - 1 - lo] == ord[lo..hi - 1] && ord[lo..hi][hi - 1 - lo] == ord[hi - 1];
    }
  }

  // ---------------------------------------------------------------- building

  ghost predicate ColumnsOk(idCol: map<Bytes, nat>, ids: seq<Bytes>)
  {
    forall id <- idCol :: idCol[id] < |ids| && ids[idCol[id]] == id
  }

  function EmptyBody(): Body { Body([], [], [0], [], []) }

  /** b with one more row of cells. */
  function WithRow(b: Body, e: OrdEntry, cols: seq<int>, ids: seq<Bytes>): Body
  {
    Body(b.keys + [e.key], b.vals + [e.val], b.indptr + [|b.indices| + |cols|], b.indices + cols, ids)
  }

  ghost predicate Names(cols: seq<int>, ids: seq<Bytes>, row: seq<Bytes>)
  {
    |cols| == |row| && forall j | 0 <= j < |cols| :: 0 <= cols[j] < |ids| && ids[cols[j]] == row[j]
  }

  lemma NamesLength(cols: seq<int>, ids: seq<Bytes>, row: seq<Bytes>)
    requires Names(cols, ids, row)
    ensures |cols| == |row|
  {
  }

  /** Give each id of a row its column, adding the ones not met before. */
  method NameColumns(row: seq<Bytes>, idCol: map<Bytes, nat>, ids: seq<Bytes>)
    returns (cols: seq<int>, idCol': map<Bytes, nat>, ids': seq<Bytes>)
    requires ColumnsOk(idCol, ids)
    ensures ColumnsOk(idCol', ids') && ids <= ids' && Names(cols, ids', row)
  {
    cols, idCol', ids' := [], idCol, ids;
    for j := 0 to |row|
      invariant ColumnsOk(idCol', ids') && ids <= ids' && Names(cols, ids', row[..j])
    {
      var id := row[j];
      if id !in idCol' {
        idCol' := idCol'[id := |ids'|];
        ids' := ids' + [id];
      }
      cols := cols + [idCol'[id]];
    }
    assert row[..|row|] == row;
  }

  lemma WithRowCells(b: Body, e: OrdEntry, cols: seq<int>, ids: seq<Bytes>, row: seq<Bytes>)
    requires ColumnsIn(b) && b.ids <= ids && Names(cols, ids, row)
    ensures ColumnsIn(WithRow(b, e, cols, ids))
    ensures Cells(WithRow(b, e, cols, ids)) == Cells(b) + row
  {
    var c := WithRow(b, e, cols, ids);
    forall j | 0 <= j < |c.indices|
      ensures 0 <= c.indices[j] < |ids| && ids[c.indices[j]] == (Cells(b) + row)[j]
    {
      if j >= |b.indices| { assert c.indices[j] == cols[j - |b.indices|]; }
    }
  }

  lemma WithRowMirrors(b: Body, ord: seq<OrdEntry>, i: nat, km: KeyMap, cols: seq<int>, ids: seq<Bytes>, row: seq<Bytes>)
    requires i < |ord| && Mirrors(b, ord[..i], km)
    requires b.ids <= ids && Names(cols, ids, row) && SortsSet(row, Owners(km, ord[i].key))
    ensures Mirrors(WithRow(b, ord[i], cols, ids), ord[..i + 1], km)
  {
    hide SortsSet, Owners, Names, Cells;
    var c := WithRow(b, ord[i], cols, ids);
    WithRowCells(b, ord[i], cols, ids, row);
    NamesLength(cols, ids, row);
    var upTo := ord[..i + 1];
    forall j | 0 <= j < |upTo|
      ensures RowMirrors(c, upTo, km, j)
    {
      if j < i {
        assert RowMirrors(b, ord[..i], km, j);
        assert RowIds(c, j) == RowIds(b, j);
      } else {
        assert c.indptr[i] == |b.indices|;
        assert RowIds(c, i) == row;
      }
    }
    forall j | 0 <= j < |c.keys|
      ensures RowSpan(c, j)
    {
      assert RowMirrors(c, upTo, km, j);
    }
  }
}
