/** The adjacency snapshot of one edge type and direction in compressed sparse row
    form, built from edge pairs. */
module Adjacency {
  import opened ByteCodec
  import opened SortedLists

  type Vertex = Bytes

  // ---------------------------------------------------------------- the matrix

  datatype Adj = Adj(keyIdx: map<Vertex, nat>, keys: seq<Vertex>, indptr: seq<nat>, indices: seq<nat>, neigh: seq<Vertex>)

  predicate RowSpan(g: Adj, i: nat)
  {
    i + 1 < |g.indptr| && g.indptr[i] <= g.indptr[i + 1] <= |g.indices|
  }

  /** Every access the row lookups make is in bounds. */
  ghost predicate InBounds(g: Adj)
  {
    && (forall v <- g.keyIdx :: g.keyIdx[v] < |g.keys|)
    && (g.keyIdx != map[] ==> |g.indptr| == |g.keys| + 1)
    && (|g.indptr| == |g.keys| + 1 ==> forall i | 0 <= i < |g.keys| :: RowSpan(g, i))
    && (forall i | 0 <= i < |g.indices| :: g.indices[i] < |g.neigh|)
  }

  function Row(g: Adj, i: nat): seq<Vertex>
    requires InBounds(g) && i < |g.keys| && |g.indptr| == |g.keys| + 1
  {
    assert RowSpan(g, i);
    seq(g.indptr[i + 1] - g.indptr[i],
        j requires 0 <= j < g.indptr[i + 1] - g.indptr[i] => g.neigh[g.indices[g.indptr[i] + j]])
  }

  function NeighborsOf(g: Adj, v: Vertex): seq<Vertex>
    requires InBounds(g)
  {
    if v in g.keyIdx then Row(g, g.keyIdx[v]) else []
  }

  method CollectNeighbors(g: Adj, v: Vertex) returns (out: seq<Vertex>)
    requires InBounds(g)
    ensures out == NeighborsOf(g, v)
  {
    out := [];
    if v !in g.keyIdx {
      return;
    }
    assert RowSpan(g, g.keyIdx[v]);
    var start, end := g.indptr[g.keyIdx[v]], g.indptr[g.keyIdx[v] + 1];
    for i := start to end
      invariant out == Row(g, g.keyIdx[v])[..i - start]
    {
      out := out + [g.neigh[g.indices[i]]];
    }
  }

  /** The matrix answers for exactly these edges: ascending, duplicate-free rows. */
  ghost predicate Represents(g: Adj, edges: set<(Vertex, Vertex)>)
  {
    && InBounds(g)
    && forall v: Vertex ::
         Ascending(NeighborsOf(g, v)) && forall w: Vertex :: w in NeighborsOf(g, v) <==> (v, w) in edges
  }

  function Flip(p: (Vertex, Vertex)): (Vertex, Vertex) { (p.1, p.0) }

  function EdgesOf(pairs: seq<(Vertex, Vertex)>, reverse: bool): set<(Vertex, Vertex)>
  {
    set i | 0 <= i < |pairs| :: if reverse then Flip(pairs[i]) else pairs[i]
  }

  method FillBuckets(pairs: seq<(Vertex, Vertex)>, reverse: bool) returns (bucket: map<Vertex, set<Vertex>>)
    ensures forall k: Vertex, v: Vertex :: (k, v) in EdgesOf(pairs, reverse) <==> k in bucket && v in bucket[k]
  {
    bucket := map[];
    for i := 0 to |pairs|
      invariant forall k: Vertex, v: Vertex ::
        (k, v) in EdgesOf(pairs[..i], reverse) <==> k in bucket && v in bucket[k]
    {
      var p := if reverse then Flip(pairs[i]) else pairs[i];
      EdgesOfSnoc(pairs, reverse, i);
      bucket := bucket[p.0 := (if p.0 in bucket then bucket[p.0] else {}) + {p.1}];
    }
    assert pairs[..|pairs|] == pairs;
  }

  lemma EdgesOfSnoc(pairs: seq<(Vertex, Vertex)>, reverse: bool, i: nat)
    requires i < |pairs|
    ensures EdgesOf(pairs[..i + 1], reverse)
            == EdgesOf(pairs[..i], reverse) + {if reverse then Flip(pairs[i]) else pairs[i]}
  {
    var a, b := EdgesOf(pairs[..i + 1], reverse), EdgesOf(pairs[..i], reverse);
    var p := if reverse then Flip(pairs[i]) else pairs[i];
    assert pairs[..i + 1][i] == pairs[i];
    forall e | e in b
      ensures e in a
    {
      var j :| 0 <= j < i && e == if reverse then Flip(pairs[..i][j]) else pairs[..i][j];
      assert pairs[..i + 1][j] == pairs[..i][j];
    }
    forall e | e in a
      ensures e in b + {p}
    {
      var j :| 0 <= j < i + 1 && e == if reverse then Flip(pairs[..i + 1][j]) else pairs[..i + 1][j];
      if j < i { assert pairs[..i][j] == pairs[..i + 1][j]; }
    }
  }

  ghost predicate CellIs(g: Adj, at: nat, v: Vertex)
  {
    at < |g.indices| && g.indices[at] < |g.neigh| && g.neigh[g.indices[at]] == v
  }

  ghost predicate RowIs(g: Adj, i: nat, ns: seq<Vertex>)
  {
    && i + 1 < |g.indptr| && g.indptr[i] + |ns| == g.indptr[i + 1] <= |g.indices|
    && forall j | 0 <= j < |ns| :: CellIs(g, g.indptr[i] + j, ns[j])
  }

  /** The finished rows, as the list of row contents. */
  ghost predicate RowsAre(g: Adj, rows: seq<seq<Vertex>>)
  {
    && |g.keys| == |rows| && |g.indptr| == |rows| + 1 && g.indptr[|rows|] == |g.indices|
    && (forall i | 0 <= i < |g.indices| :: g.indices[i] < |g.neigh|)
    && forall i | 0 <= i < |rows| :: RowIs(g, i, rows[i])
  }

  lemma RowContents(g: Adj, i: nat, ns: seq<Vertex>)
    requires InBounds(g) && i < |g.keys| && |g.indptr| == |g.keys| + 1 && RowIs(g, i, ns)
    ensures Row(g, i) == ns
  {
    forall j | 0 <= j < |ns|
      ensures Row(g, i)[j] == ns[j]
    {
      assert CellIs(g, g.indptr[i] + j, ns[j]);
    }
  }

  lemma RowKept(g: Adj, h: Adj, i: nat, ns: seq<Vertex>)
    requires RowIs(g, i, ns)
    requires g.indptr <= h.indptr && g.indices <= h.indices && g.neigh <= h.neigh
    ensures RowIs(h, i, ns)
  {
    forall j | 0 <= j < |ns|
      ensures CellIs(h, h.indptr[i] + j, ns[j])
    {
      assert CellIs(g, g.indptr[i] + j, ns[j]);
    }
  }

  ghost predicate ColumnsOk(vertIdx: map<Vertex, nat>, neigh: seq<Vertex>)
  {
    forall v <- vertIdx :: vertIdx[v] < |neigh| && neigh[vertIdx[v]] == v
  }

  /** Append one ascending row, sharing columns with earlier rows. */
  method AppendRow(ns: seq<Vertex>, vertIdx0: map<Vertex, nat>, indices0: seq<nat>, neigh0: seq<Vertex>)
    returns (vertIdx: map<Vertex, nat>, indices: seq<nat>, neigh: seq<Vertex>)
    requires ColumnsOk(vertIdx0, neigh0)
    ensures ColumnsOk(vertIdx, neigh) && neigh0 <= neigh && indices0 <= indices
    ensures |indices| == |indices0| + |ns|
    ensures forall t | |indices0| <= t < |indices| ::
      indices[t] < |neigh| && neigh[indices[t]] == ns[t - |indices0|]
  {
    vertIdx, indices, neigh := vertIdx0, indices0, neigh0;
    for i := 0 to |ns|
      invariant ColumnsOk(vertIdx, neigh) && neigh0 <= neigh && indices0 <= indices
      invariant |indices| == |indices0| + i
      invariant forall t | |indices0| <= t < |indices| ::
        indices[t] < |neigh| && neigh[indices[t]] == ns[t - |indices0|]
    {
      var v := ns[i];
      if v !in vertIdx {
        vertIdx := vertIdx[v := |neigh|];
        neigh := neigh + [v];
      }
      indices := indices + [vertIdx[v]];
    }
  }

  lemma RowsSnoc(g: Adj, rows: seq<seq<Vertex>>, k: Vertex, ns: seq<Vertex>, indices: seq<nat>, neigh: seq<Vertex>)
    requires RowsAre(g, rows) && g.neigh <= neigh && g.indices <= indices && |indices| == |g.indices| + |ns|
    requires forall t | |g.indices| <= t < |indices| ::
      indices[t] < |neigh| && neigh[indices[t]] == ns[t - |g.indices|]
    ensures RowsAre(Adj(g.keyIdx[k := |g.keys|], g.keys + [k], g.indptr + [|indices|], indices, neigh), rows + [ns])
  {
    var h := Adj(g.keyIdx[k := |g.keys|], g.keys + [k], g.indptr + [|indices|], indices, neigh);
    forall i | 0 <= i < |indices|
      ensures indices[i] < |neigh|
    {
      if i < |g.indices| { assert indices[i] == g.indices[i]; }
    }
    forall i | 0 <= i <= |rows|
      ensures RowIs(h, i, (rows + [ns])[i])
    {
      hide RowIs;
      if i < |rows| {
        RowKept(g, h, i, rows[i]);
      } else {
        LastRow(h, i, ns);
      }
    }
  }

  lemma LastRow(h: Adj, i: nat, ns: seq<Vertex>)
    requires i + 1 < |h.indptr| && h.indptr[i] + |ns| == h.indptr[i + 1] == |h.indices|
    requires forall t | h.indptr[i] <= t < |h.indices| ::
      h.indices[t] < |h.neigh| && h.neigh[h.indices[t]] == ns[t - h.indptr[i]]
    ensures RowIs(h, i, ns)
  {
  }

  lemma RowsInBounds(g: Adj, rows: seq<seq<Vertex>>)
    requires RowsAre(g, rows) && forall v <- g.keyIdx :: g.keyIdx[v] < |g.keys|
    ensures InBounds(g) && forall i | 0 <= i < |rows| :: Row(g, i) == rows[i]
  {
    assert InBounds(g) by {
      forall i | 0 <= i < |g.keys|
        ensures RowSpan(g, i)
      {
        assert RowIs(g, i, rows[i]);
      }
    }
    forall i | 0 <= i < |rows|
      ensures Row(g, i) == rows[i]
    {
      RowContents(g, i, rows[i]);
    }
  }

  ghost predicate KeysIndexed(keyIdx: map<Vertex, nat>, keys: seq<Vertex>)
  {
    && (forall v: Vertex :: v in keyIdx <==> v in keys)
    && (forall j | 0 <= j < |keys| :: keys[j] in keyIdx && keyIdx[keys[j]] == j)
  }

  lemma KeysIndexedSnoc(keyIdx: map<Vertex, nat>, keys: seq<Vertex>, k: Vertex)
    requires KeysIndexed(keyIdx, keys) && k !in keys
    ensures KeysIndexed(keyIdx[k := |keys|], keys + [k])
  {
    forall j | 0 <= j < |keys|
      ensures keys[j] != k
    {
      assert keys[j] in keys;
    }
  }

  ghost predicate RowsSort(rows: seq<seq<Vertex>>, keys: seq<Vertex>, bucket: map<Vertex, set<Vertex>>)
    requires |rows| <= |keys| && forall j | 0 <= j < |keys| :: keys[j] in bucket
  {
    forall j | 0 <= j < |rows| :: SortsSet(rows[j], bucket[keys[j]])
  }

  lemma RowsSortSnoc(rows: seq<seq<Vertex>>, keys: seq<Vertex>, bucket: map<Vertex, set<Vertex>>, ns: seq<Vertex>)
    requires |rows| < |keys| && forall j | 0 <= j < |keys| :: keys[j] in bucket
    requires RowsSort(rows, keys, bucket) && SortsSet(ns, bucket[keys[|rows|]])
    ensures RowsSort(rows + [ns], keys, bucket)
  {
  }

  method AddRow(g: Adj, vertIdx: map<Vertex, nat>, k: Vertex, members: set<Vertex>, ghost rows: seq<seq<Vertex>>)
    returns (h: Adj, vertIdx': map<Vertex, nat>, ghost ns: seq<Vertex>)
    requires RowsAre(g, rows) && ColumnsOk(vertIdx, g.neigh)
    ensures RowsAre(h, rows + [ns]) && ColumnsOk(vertIdx', h.neigh) && SortsSet(ns, members)
    ensures h.keyIdx == g.keyIdx[k := |g.keys|] && |h.keys| == |g.keys| + 1 && |h.indptr| == |g.indptr| + 1
  {
    hide RowsAre, ColumnsOk, SortsSet;
    var sorted := SortedMembers(members);
    var indices, neigh;
    vertIdx', indices, neigh := AppendRow(sorted, vertIdx, g.indices, g.neigh);
    RowsSnoc(g, rows, k, sorted, indices, neigh);
    h := Adj(g.keyIdx[k := |g.keys|], g.keys + [k], g.indptr + [|indices|], indices, neigh);
    ns := sorted;
  }

  method FillRows(bucket: map<Vertex, set<Vertex>>, keys: seq<Vertex>) returns (g: Adj, ghost rows: seq<seq<Vertex>>)
    requires Ascending(keys) && forall j | 0 <= j < |keys| :: keys[j] in bucket
    ensures RowsAre(g, rows) && |rows| == |keys| == |g.keys|
    ensures KeysIndexed(g.keyIdx, keys) && RowsSort(rows, keys, bucket)
  {
    g := Adj(map[], [], [0], [], []);
    var vertIdx: map<Vertex, nat> := map[];
    rows := [];
    assert keys[..0] == [];
    for i := 0 to |keys|
      invariant RowsAre(g, rows) && |rows| == i == |g.keys| && ColumnsOk(vertIdx, g.neigh)
      invariant |g.indptr| == i + 1 && KeysIndexed(g.keyIdx, keys[..i])
      invariant RowsSort(rows, keys, bucket)
    {
      hide RowsAre, ColumnsOk, KeysIndexed, RowsSort;
      ghost var ns, g0 := [], g;
      g, vertIdx, ns := AddRow(g, vertIdx, keys[i], bucket[keys[i]], rows);
      Distinct(keys, i);
      KeysIndexedSnoc(g0.keyIdx, keys[..i], keys[i]);
      assert keys[..i + 1] == keys[..i] + [keys[i]];
      RowsSortSnoc(rows, keys, bucket, ns);
      rows := rows + [ns];
    }
    assert keys[..|keys|] == keys;
  }

  /** Build the matrix from edge pairs; the result represents exactly those edges. */
  method BuildAdj(pairs: seq<(Vertex, Vertex)>, reverse: bool) returns (g: Adj)
    ensures Represents(g, EdgesOf(pairs, reverse))
  {
    var bucket := FillBuckets(pairs, reverse);
    if bucket.Keys == {} {
      return Adj(map[], [], [], [], []);
    }
    hide InBounds, Row, SortsSet;
    var keys := SortedMembers(bucket.Keys);
    assert forall j | 0 <= j < |keys| :: keys[j] in keys;
    ghost var rows;
    g, rows := FillRows(bucket, keys);
    RowsInBounds(g, rows);
    BuiltRight(g, rows, keys, bucket, EdgesOf(pairs, reverse));
  }

  lemma BuiltRight(g: Adj, rows: seq<seq<Vertex>>, keys: seq<Vertex>, bucket: map<Vertex, set<Vertex>>,
      edges: set<(Vertex, Vertex)>)
    requires InBounds(g) && |rows| == |keys| == |g.keys| && |g.indptr| == |g.keys| + 1
    requires forall i | 0 <= i < |rows| :: Row(g, i) == rows[i]
    requires forall v: Vertex :: v in g.keyIdx <==> v in keys
    requires forall v: Vertex :: v in keys <==> v in bucket
    requires forall j | 0 <= j < |keys| :: keys[j] in g.keyIdx && g.keyIdx[keys[j]] == j
    requires forall j | 0 <= j < |keys| :: SortsSet(rows[j], bucket[keys[j]])
    requires forall k: Vertex, v: Vertex :: (k, v) in edges <==> k in bucket && v in bucket[k]
    ensures Represents(g, edges)
  {
    hide InBounds;
    forall v: Vertex
      ensures Ascending(NeighborsOf(g, v)) && forall w: Vertex :: w in NeighborsOf(g, v) <==> (v, w) in edges
    {
      if v in keys {
        var j :| 0 <= j < |keys| && keys[j] == v;
        assert NeighborsOf(g, v) == rows[j];
        assert SortsSet(rows[j], bucket[v]);
      } else {
        assert NeighborsOf(g, v) == [];
      }
    }
  }

  lemma Distinct(keys: seq<Bytes>, i: nat)
    requires Ascending(keys) && i < |keys|
    ensures keys[i] !in keys[..i]
  {
    LessIrreflexive(keys[i]);
  }
}
