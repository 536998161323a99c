/** The cached adjacency of every edge collection and its invalidation by epoch. */
module GraphCache {
  import opened ByteCodec
  import opened SortedLists
  import opened Values
  import opened Adjacency
  import opened Traversal

  const EDGE_PREFIX: Bytes := [101, 100, 103, 101, 115, 46] // "edges."
  const FROM: Bytes := [95, 102, 114, 111, 109]
  const TO: Bytes := [95, 116, 111]

  predicate IsEdgeColl(name: Bytes) { EDGE_PREFIX <= name && |name| > |EDGE_PREFIX| }

  function EdgeCollName(edgeType: Bytes): Bytes { EDGE_PREFIX + edgeType }

  function TextField(d: Doc, f: Bytes): Bytes
  {
    if f in d && d[f].Str? then d[f].s else []
  }

  /** The edge a document stands for; both ends must be non-empty strings. */
  function EdgeOf(d: Doc): Option<(Vertex, Vertex)>
  {
    var from, to := TextField(d, FROM), TextField(d, TO);
    if from == [] || to == [] then None else Some((from, to))
  }

  function CollEdges(docs: map<Bytes, Doc>): Edges
  {
    set id | id in docs && EdgeOf(docs[id]).Some? :: EdgeOf(docs[id]).value
  }

  type Colls = map<Bytes, map<Bytes, Doc>>

  /** The edges of one type according to the documents. */
  function EdgesOfType(colls: Colls, edgeType: Bytes): Edges
  {
    if edgeType != [] && EdgeCollName(edgeType) in colls then CollEdges(colls[EdgeCollName(edgeType)]) else {}
  }

  /** The documents of a collection that can be read. */
  function LegibleDocs(docs: map<Bytes, Doc>, name: Bytes, unread: set<(Bytes, Bytes)>): map<Bytes, Doc>
  {
    map id | id in docs && (name, id) !in unread :: docs[id]
  }

  function Legible(colls: Colls, unread: set<(Bytes, Bytes)>): Colls
  {
    map name | name in colls :: LegibleDocs(colls[name], name, unread)
  }

  /** Every document that cannot be read stands for no edge that another one does not. */
  ghost predicate NoEdgeUnread(colls: Colls, unread: set<(Bytes, Bytes)>)
  {
    forall edgeType: Bytes :: EdgesOfType(Legible(colls, unread), edgeType) == EdgesOfType(colls, edgeType)
  }

  lemma AllLegible(colls: Colls)
    ensures Legible(colls, {}) == colls && NoEdgeUnread(colls, {})
  {
    assert forall name <- colls :: LegibleDocs(colls[name], name, {}) == colls[name];
  }

  /** Cached rows agree with the documents for one edge type, both directions. */
  ghost predicate CoherentFor(colls: Colls, out: map<Bytes, Adj>, inn: map<Bytes, Adj>, edgeType: Bytes)
  {
    && SnapshotOf(Get(out, edgeType), EdgesOfType(colls, edgeType))
    && SnapshotOf(Get(inn, edgeType), Flipped(EdgesOfType(colls, edgeType)))
  }

  ghost predicate Coherent(colls: Colls, out: map<Bytes, Adj>, inn: map<Bytes, Adj>)
  {
    forall edgeType: Bytes :: CoherentFor(colls, out, inn, edgeType)
  }

  // ---------------------------------------------------------------- edges as documents

  /** The document is an edge from v to w. */
  predicate Joins(d: Doc, v: Vertex, w: Vertex)
  {
    && v != [] && w != []
    && Ascii("_from") in d && d[Ascii("_from")] == Str(v) && Ascii("_to") in d && d[Ascii("_to")] == Str(w)
  }

  /** Some document of the edge collection is an edge from v to w. */
  predicate Linked(colls: Colls, edgeType: Bytes, v: Vertex, w: Vertex)
  {
    var name := Ascii("edges.") + edgeType;
    edgeType != [] && name in colls && exists id | id in colls[name] :: Joins(colls[name][id], v, w)
  }

  lemma LinkedIsEdge(colls: Colls, edgeType: Bytes, v: Vertex, w: Vertex)
    ensures (v, w) in EdgesOfType(colls, edgeType) <==> Linked(colls, edgeType, v, w)
  {
    assert Ascii("_from") == FROM && Ascii("_to") == TO && Ascii("edges.") == EDGE_PREFIX;
    var name := Ascii("edges.") + edgeType;
    if edgeType != [] && name in colls {
      var docs := colls[name];
      forall id | id in docs
        ensures Joins(docs[id], v, w) <==> EdgeOf(docs[id]) == Some((v, w))
      {
      }
    }
  }

  /** v and w are joined in the direction asked for. */
  predicate Steps(colls: Colls, edgeType: Bytes, dir: Direction, v: Vertex, w: Vertex)
  {
    match dir
    case Outgoing => Linked(colls, edgeType, v, w)
    case Incoming => Linked(colls, edgeType, w, v)
    case Both => Linked(colls, edgeType, v, w) || Linked(colls, edgeType, w, v)
  }

  lemma StepsIsFollowed(colls: Colls, edgeType: Bytes, dir: Direction, v: Vertex, w: Vertex)
    ensures (v, w) in Followed(EdgesOfType(colls, edgeType), dir) <==> Steps(colls, edgeType, dir, v, w)
  {
    hide EdgesOfType, Linked;
    LinkedIsEdge(colls, edgeType, v, w);
    LinkedIsEdge(colls, edgeType, w, v);
    assert (v, w) == Flip((w, v));
  }

  /** A chain of documents from one vertex to the other, each followed as asked for. */
  predicate Chain(colls: Colls, edgeType: Bytes, dir: Direction, p: seq<Vertex>, from: Vertex, to: Vertex)
  {
    && p != [] && p[0] == from && p[|p| - 1] == to
    && forall i | 0 < i < |p| :: Steps(colls, edgeType, dir, p[i - 1], p[i])
  }

  lemma ChainIsPath(colls: Colls, edgeType: Bytes, dir: Direction, p: seq<Vertex>, from: Vertex, to: Vertex)
    ensures PathBetween(Followed(EdgesOfType(colls, edgeType), dir), p, from, to)
            <==> Chain(colls, edgeType, dir, p, from, to)
  {
    hide Followed, EdgesOfType, Steps;
    forall i | 0 < i < |p|
      ensures (p[i - 1], p[i]) in Followed(EdgesOfType(colls, edgeType), dir)
              <==> Steps(colls, edgeType, dir, p[i - 1], p[i])
    {
      StepsIsFollowed(colls, edgeType, dir, p[i - 1], p[i]);
    }
  }

  /** The distance of a vertex, counted in documents: a chain of d of them leads there,
      and no shorter one. */
  lemma DistanceMeans(colls: Colls, edgeType: Bytes, dir: Direction, from: Vertex, v: Vertex, d: nat)
    ensures AtDistance(Followed(EdgesOfType(colls, edgeType), dir), from, v, d) <==>
            && (exists p: seq<Vertex> :: Chain(colls, edgeType, dir, p, from, v) && |p| == d + 1)
            && (forall p: seq<Vertex> :: Chain(colls, edgeType, dir, p, from, v) ==> |p| >= d + 1)
  {
    hide Followed, EdgesOfType, Chain, PathBetween;
    forall p: seq<Vertex>
      ensures PathBetween(Followed(EdgesOfType(colls, edgeType), dir), p, from, v)
              <==> Chain(colls, edgeType, dir, p, from, v)
    {
      ChainIsPath(colls, edgeType, dir, p, from, v);
    }
  }

  lemma ReportedChains(colls: Colls, edgeType: Bytes, dir: Direction, start: Vertex, r: seq<Item>, min: nat, max: nat,
      limit: nat)
    requires Reports(Followed(EdgesOfType(colls, edgeType), dir), start, r, min, max, limit)
    ensures forall i | 0 <= i < |r| ::
              exists p :: Chain(colls, edgeType, dir, p, start, r[i].v) && |p| == r[i].d + 1
  {
    hide Followed, EdgesOfType, Chain, AtDistance;
    forall i | 0 <= i < |r|
      ensures exists p :: Chain(colls, edgeType, dir, p, start, r[i].v) && |p| == r[i].d + 1
    {
      DistanceMeans(colls, edgeType, dir, start, r[i].v, r[i].d);
    }
  }

  lemma PathOfDocuments(colls: Colls, edgeType: Bytes, r: Option<seq<Vertex>>, from: Vertex, to: Vertex, maxDepth: nat)
    requires match r
             case Some(p) => Shortest(EdgesOfType(colls, edgeType), p, from, to)
             case None => TooFar(EdgesOfType(colls, edgeType), from, to, maxDepth)
    ensures match r
            case Some(p) =>
              && Chain(colls, edgeType, Outgoing, p, from, to)
              && forall q :: Chain(colls, edgeType, Outgoing, q, from, to) ==> |p| <= |q|
            case None => forall q :: Chain(colls, edgeType, Outgoing, q, from, to) ==> |q| > maxDepth + 1
  {
    hide EdgesOfType, Chain, PathBetween;
    forall q
      ensures PathBetween(EdgesOfType(colls, edgeType), q, from, to) <==> Chain(colls, edgeType, Outgoing, q, from, to)
    {
      ChainIsPath(colls, edgeType, Outgoing, q, from, to);
    }
  }

  lemma EdgesAreNamed(colls: Colls, edgeType: Bytes)
    ensures EndsNamed(EdgesOfType(colls, edgeType))
  {
  }

  class Graph {
    var colls: Colls
    var epoch: nat
    var builtEpoch: nat
    var built: bool
    var graphOut: map<Bytes, Adj>
    var graphIn: map<Bytes, Adj>

    /** The one thing a caller relies on: equal epochs mean the cache is current. */
    ghost predicate Valid()
      reads this
    {
      && builtEpoch <= epoch
      && (built && builtEpoch == epoch ==> Coherent(colls, graphOut, graphIn))
    }

    constructor ()
      ensures Valid() && colls == map[] && !built
    {
      colls, epoch, builtEpoch, built := map[], 0, 0, false;
      graphOut, graphIn := map[], map[];
    }

    method NoteEdgeMutation(coll: Bytes)
      modifies this`epoch
      ensures epoch == old(epoch) + (if IsEdgeColl(coll) then 1 else 0)
    {
      if IsEdgeColl(coll) {
        epoch := epoch + 1;
      }
    }

    /** Insert, upsert and update store a document and then note the mutation. */
    method SetDoc(coll: Bytes, id: Bytes, d: Doc)
      requires Valid()
      modifies this`colls, this`epoch
      ensures Valid()
      ensures colls == old(colls)[coll := (if coll in old(colls) then old(colls)[coll] else map[])[id := d]]
    {
      ghost var before := colls;
      colls := colls[coll := (if coll in colls then colls[coll] else map[])[id := d]];
      NoteEdgeMutation(coll);
      if !IsEdgeColl(coll) { OtherCollection(before, colls, coll, graphOut, graphIn); }
    }

    method DeleteDoc(coll: Bytes, id: Bytes)
      requires Valid()
      modifies this`colls, this`epoch
      ensures Valid()
      ensures colls == if coll in old(colls) && id in old(colls)[coll]
                       then old(colls)[coll := old(colls)[coll] - {id}] else old(colls)
    {
      if coll !in colls || id !in colls[coll] {
        return;
      }
      ghost var before := colls;
      colls := colls[coll := colls[coll] - {id}];
      NoteEdgeMutation(coll);
      if !IsEdgeColl(coll) { OtherCollection(before, colls, coll, graphOut, graphIn); }
    }

    /** Dropping a collection forgets it, with whatever documents have been stored in
        it since it was emptied; the epoch is raised in a later critical section.
        In between the cache is stale exactly when it was current and the collection
        held edges. */
    method ForgetCollection(coll: Bytes)
      requires Valid() && coll in colls
      modifies this`colls
      ensures colls == old(colls) - {coll}
      ensures Valid() <==> !built || builtEpoch != epoch || (IsEdgeColl(coll) ==> CollEdges(old(colls)[coll]) == {})
    {
      ghost var before := colls;
      colls := colls - {coll};
      ForgetExact(before, coll, graphOut, graphIn);
    }

    /** The last part of a drop: from here on the cache is known to be stale, whatever
        happened between the two critical sections. */
    method RaiseEpoch()
      requires builtEpoch <= epoch
      modifies this`epoch
      ensures Valid() && epoch == old(epoch) + 1
    {
      epoch := epoch + 1;
    }

    ghost predicate Current()
      reads this
    {
      built && builtEpoch == epoch
    }

    /** The documents the next answer is about: the current ones, except those a rebuild
        now could not read. */
    ghost function Seen(unread: set<(Bytes, Bytes)>): Colls
      reads this
    {
      if Current() then colls else Legible(colls, unread)
    }

    /** Rebuild the snapshots when the epoch has moved. Documents that cannot be read are
        skipped, and the epoch is recorded all the same: the promise survives exactly
        when none of them stands for an edge of its own. */
    method EnsureGraph(unread: set<(Bytes, Bytes)>)
      requires Valid()
      modifies this`graphOut, this`graphIn, this`builtEpoch, this`built
      ensures Current() && Coherent(old(Seen(unread)), graphOut, graphIn)
      ensures old(Current()) ==> graphOut == old(graphOut) && graphIn == old(graphIn)
      ensures Valid() <==> old(Current()) || NoEdgeUnread(colls, unread)
    {
      if built && builtEpoch == epoch {
        return;
      }
      var out, inn := BuildAll(colls, unread);
      builtEpoch := epoch;
      built, graphOut, graphIn := true, out, inn;
      RebuildExact(colls, unread, out, inn);
    }

    /** Direct neighbours: those of the documents seen, the current ones when all can be
        read. */
    method Neighbors(edgeType: Bytes, v: Vertex, dir: Direction, unread: set<(Bytes, Bytes)>) returns (ns: seq<Vertex>)
      requires Valid()
      modifies this`graphOut, this`graphIn, this`builtEpoch, this`built
      ensures Ascending(ns) && (Valid() <==> v == [] || old(Current()) || NoEdgeUnread(colls, unread))
      // over the documents seen: the targets, the sources, or both
      ensures dir.Outgoing? && v != [] ==>
                forall w: Vertex :: w in ns <==> Linked(old(Seen(unread)), edgeType, v, w)
      ensures dir.Incoming? && v != [] ==>
                forall w: Vertex :: w in ns <==> Linked(old(Seen(unread)), edgeType, w, v)
      ensures dir.Both? && v != [] ==>
                forall w: Vertex :: w in ns <==>
                  Linked(old(Seen(unread)), edgeType, v, w) || Linked(old(Seen(unread)), edgeType, w, v)
      ensures v == [] ==> ns == []
    {
      if v == [] {
        return [];
      }
      hide Linked, EdgesOfType, Represents;
      ghost var seen := Seen(unread);
      EnsureGraph(unread);
      assert CoherentFor(seen, graphOut, graphIn, edgeType);
      ns := AdjFor(Get(graphOut, edgeType), Get(graphIn, edgeType), EdgesOfType(seen, edgeType), dir, v);
      forall w: Vertex
        ensures w in ns <==> Steps(seen, edgeType, dir, v, w)
      {
        StepsIsFollowed(seen, edgeType, dir, v, w);
      }
    }

    /** The public traversal: each vertex of the documents seen once, at its true
        distance, whatever was cached. */
    method Traverse(edgeType: Bytes, start: Vertex, dir: Direction, askedMin: int, askedMax: int, askedLimit: int,
        unread: set<(Bytes, Bytes)>) returns (r: Option<seq<Item>>)
      requires Valid()
      modifies this`graphOut, this`graphIn, this`builtEpoch, this`built
      ensures r.None? <==> edgeType == [] || start == []
      ensures Valid() <==> r.None? || old(Current()) || NoEdgeUnread(colls, unread)
      ensures r.Some? ==> Reports(Followed(EdgesOfType(old(Seen(unread)), edgeType), dir), start, r.value,
                                  if askedMin < 0 then 0 else askedMin,
                                  Clamp(askedMax, DEFAULT_TRAVERSE_DEPTH, MAX_TRAVERSE_DEPTH),
                                  Clamp(askedLimit, DEFAULT_TRAVERSE_LIMIT, MAX_TRAVERSE_LIMIT))
      // each vertex reported at depth d ends a chain of d of the documents seen
      ensures r.Some? ==> forall i | 0 <= i < |r.value| ::
        exists p :: Chain(old(Seen(unread)), edgeType, dir, p, start, r.value[i].v) && |p| == r.value[i].d + 1
    {
      if edgeType == [] || start == [] {
        return None;
      }
      ghost var seen := Seen(unread);
      EnsureGraph(unread);
      assert CoherentFor(seen, graphOut, graphIn, edgeType);
      hide EdgesOfType, Reports, Represents, Followed, Flipped;
      var items := Traversal.Traverse(Get(graphOut, edgeType), Get(graphIn, edgeType), EdgesOfType(seen, edgeType),
                                      start, dir, askedMin, askedMax, askedLimit);
      r := Some(items);
      ReportedChains(seen, edgeType, dir, start, items,
                     if askedMin < 0 then 0 else askedMin,
                     Clamp(askedMax, DEFAULT_TRAVERSE_DEPTH, MAX_TRAVERSE_DEPTH),
                     Clamp(askedLimit, DEFAULT_TRAVERSE_LIMIT, MAX_TRAVERSE_LIMIT));
    }

    /** The public shortest path: over the documents seen, whatever was cached. */
    method Path(edgeType: Bytes, from: Vertex, to: Vertex, askedDepth: int, unread: set<(Bytes, Bytes)>)
      returns (r: Option<seq<Vertex>>)
      requires Valid() && from != [] && to != []
      modifies this`graphOut, this`graphIn, this`builtEpoch, this`built
      ensures Valid() <==> old(Current()) || NoEdgeUnread(colls, unread)
      ensures var e := EdgesOfType(old(Seen(unread)), edgeType);
              var maxDepth := Clamp(askedDepth, DEFAULT_PATH_DEPTH, MAX_PATH_DEPTH);
              match r
              case Some(p) => Shortest(e, p, from, to) && |p| <= maxDepth + 1
              case None => TooFar(e, from, to, maxDepth)
      // along the documents seen, and along none of their shorter chains
      ensures var maxDepth := Clamp(askedDepth, DEFAULT_PATH_DEPTH, MAX_PATH_DEPTH);
              match r
              case Some(p) =>
                && Chain(old(Seen(unread)), edgeType, Outgoing, p, from, to)
                && forall q :: Chain(old(Seen(unread)), edgeType, Outgoing, q, from, to) ==> |p| <= |q|
              case None => forall q :: Chain(old(Seen(unread)), edgeType, Outgoing, q, from, to) ==> |q| > maxDepth + 1
    {
      ghost var seen := Seen(unread);
      EnsureGraph(unread);
      assert CoherentFor(seen, graphOut, graphIn, edgeType);
      EdgesAreNamed(seen, edgeType);
      hide EdgesOfType, Represents, Chain, Shortest, TooFar;
      r := ShortestPath(Get(graphOut, edgeType), EdgesOfType(seen, edgeType), from, to, askedDepth);
      PathOfDocuments(seen, edgeType, r, from, to, Clamp(askedDepth, DEFAULT_PATH_DEPTH, MAX_PATH_DEPTH));
    }
  }

  /** A concrete failure of dropping a collection: one edge is stored and cached, and
      the collection is forgotten. The cache counts as current and holds the edge. */
  method ForgottenEdgeIsServed() returns (g: Graph)
    ensures fresh(g) && g.Current() && !g.Valid() && g.colls == map[] && EdgesOfType(g.colls, [120]) == {}
    ensures SnapshotOf(Get(g.graphOut, [120]), {([97], [98])})
  {
    hide Represents;
    g := new Graph();
    var doc: Doc := map[FROM := Str([97]), TO := Str([98])];
    g.SetDoc(EdgeCollName([120]), [49], doc);
    OneEdge(g.colls, doc);
    AllLegible(g.colls);
    g.EnsureGraph({});
    assert CoherentFor(g.colls, g.graphOut, g.graphIn, [120]);
    g.ForgetCollection(EdgeCollName([120]));
  }

  lemma OneEdge(colls: Colls, doc: Doc)
    requires doc == map[FROM := Str([97]), TO := Str([98])]
    requires colls == map[EdgeCollName([120]) := map[[49] := doc]]
    ensures EdgesOfType(colls, [120]) == CollEdges(colls[EdgeCollName([120])]) == {([97], [98])}
    ensures IsEdgeColl(EdgeCollName([120]))
  {
    var docs := colls[EdgeCollName([120])];
    assert FROM != TO;
    assert EdgeOf(docs[[49]]) == Some(([97], [98]));
  }

  /** One document, followed each way: from a to b and not back. */
  method OneEdgeFollowed() returns (targets: seq<Vertex>, sources: seq<Vertex>, none: seq<Vertex>)
    ensures targets == [Ascii("b")] && sources == [Ascii("a")] && none == []
  {
    hide Represents;
    var g := new Graph();
    var a, b := Ascii("a"), Ascii("b");
    var doc: Doc := map[Ascii("_from") := Str(a), Ascii("_to") := Str(b)];
    assert EdgeCollName(Ascii("x")) == Ascii("edges.x");
    g.SetDoc(EdgeCollName(Ascii("x")), Ascii("1"), doc);
    OneLink(g.colls, doc);
    AllLegible(g.colls);
    targets := g.Neighbors(Ascii("x"), a, Outgoing, {});
    OnlyMember(targets, b);
    sources := g.Neighbors(Ascii("x"), b, Incoming, {});
    OnlyMember(sources, a);
    none := g.Neighbors(Ascii("x"), b, Outgoing, {});
    assert a[0] != b[0];
    NoMember(none);
  }

  lemma NoMember(s: seq<Vertex>)
    requires forall y: Vertex :: y !in s
    ensures s == []
  {
    if s != [] {
      FirstIn(s);
      assert false;
    }
  }

  lemma FirstIn(s: seq<Vertex>)
    requires s != []
    ensures s[0] in s
  {
  }

  lemma OneLink(colls: Colls, doc: Doc)
    requires doc == map[Ascii("_from") := Str(Ascii("a")), Ascii("_to") := Str(Ascii("b"))]
    requires colls == map[Ascii("edges.x") := map[Ascii("1") := doc]]
    ensures forall v: Vertex, w: Vertex :: Linked(colls, Ascii("x"), v, w) <==> v == Ascii("a") && w == Ascii("b")
  {
    assert Ascii("edges.") + Ascii("x") == Ascii("edges.x");
    assert Ascii("_from")[1] != Ascii("_to")[1];
    var docs := colls[Ascii("edges.x")];
    assert Ascii("1") in docs && docs[Ascii("1")] == doc;
    assert Joins(doc, Ascii("a"), Ascii("b"));
  }

  lemma OnlyMember(s: seq<Vertex>, x: Vertex)
    requires Ascending(s) && forall y: Vertex :: y in s <==> y == x
    ensures s == [x]
  {
    assert x in s && s[0] in s;
    if |s| > 1 {
      assert s[0] in s && s[1] in s;
      assert Less(s[0], s[1]);
      LessIrreflexive(x);
    }
  }

  /** Snapshots of what can be read are snapshots of everything exactly when nothing
      unread stands for an edge of its own. */
  lemma RebuildExact(colls: Colls, unread: set<(Bytes, Bytes)>, out: map<Bytes, Adj>, inn: map<Bytes, Adj>)
    requires Coherent(Legible(colls, unread), out, inn)
    ensures Coherent(colls, out, inn) <==> NoEdgeUnread(colls, unread)
  {
    hide EdgesOfType, Represents, LegibleDocs;
    if NoEdgeUnread(colls, unread) {
      SameEdges(Legible(colls, unread), colls, out, inn);
    }
    if Coherent(colls, out, inn) {
      forall edgeType: Bytes
        ensures EdgesOfType(Legible(colls, unread), edgeType) == EdgesOfType(colls, edgeType)
      {
        assert CoherentFor(colls, out, inn, edgeType) && CoherentFor(Legible(colls, unread), out, inn, edgeType);
        OneSnapshot(Get(out, edgeType), EdgesOfType(Legible(colls, unread), edgeType), EdgesOfType(colls, edgeType));
      }
    }
  }

  lemma SameEdges(before: Colls, after: Colls, out: map<Bytes, Adj>, inn: map<Bytes, Adj>)
    requires forall edgeType: Bytes :: EdgesOfType(after, edgeType) == EdgesOfType(before, edgeType)
    ensures Coherent(before, out, inn) ==> Coherent(after, out, inn)
  {
    if Coherent(before, out, inn) {
      forall edgeType: Bytes
        ensures CoherentFor(after, out, inn, edgeType)
      {
        assert CoherentFor(before, out, inn, edgeType);
      }
    }
  }

  lemma ForgetExact(before: Colls, coll: Bytes, out: map<Bytes, Adj>, inn: map<Bytes, Adj>)
    requires coll in before
    ensures Coherent(before, out, inn) ==>
              (Coherent(before - {coll}, out, inn) <==> (IsEdgeColl(coll) ==> CollEdges(before[coll]) == {}))
  {
    var after := before - {coll};
    if IsEdgeColl(coll) && CollEdges(before[coll]) != {} {
      var t := coll[|EDGE_PREFIX|..];
      assert EdgeCollName(t) == coll;
      if Coherent(before, out, inn) && Coherent(after, out, inn) {
        assert CoherentFor(before, out, inn, t) && CoherentFor(after, out, inn, t);
        OneSnapshot(Get(out, t), CollEdges(before[coll]), {});
      }
    } else {
      forall edgeType: Bytes
        ensures EdgesOfType(after, edgeType) == EdgesOfType(before, edgeType)
      {
        assert edgeType != [] ==> IsEdgeColl(EdgeCollName(edgeType));
      }
      SameEdges(before, after, out, inn);
    }
  }

  /** A snapshot stands for one set of edges. */
  lemma OneSnapshot(g: Option<Adj>, a: Edges, b: Edges)
    requires SnapshotOf(g, a) && SnapshotOf(g, b)
    ensures a == b
  {
    if g.Some? {
      forall v: Vertex, w: Vertex
        ensures (v, w) in a <==> (v, w) in b
      {
        assert w in NeighborsOf(g.value, v) <==> (v, w) in a;
      }
      forall p
        ensures p in a <==> p in b
      {
        assert p == (p.0, p.1);
      }
    }
  }

  lemma OtherCollection(before: Colls, after: Colls, coll: Bytes, out: map<Bytes, Adj>, inn: map<Bytes, Adj>)
    requires !IsEdgeColl(coll)
    requires forall name: Bytes | name != coll ::
      (name in after <==> name in before) && (name in after ==> after[name] == before[name])
    ensures Coherent(before, out, inn) ==> Coherent(after, out, inn)
  {
    forall edgeType: Bytes
      ensures EdgesOfType(after, edgeType) == EdgesOfType(before, edgeType)
    {
      assert edgeType != [] ==> IsEdgeColl(EdgeCollName(edgeType));
    }
    SameEdges(before, after, out, inn);
  }

  /** Collect the edge pairs of one collection, skipping what cannot be read. */
  method CollectPairs(docs: map<Bytes, Doc>, name: Bytes, unread: set<(Bytes, Bytes)>)
    returns (pairs: seq<(Vertex, Vertex)>)
    ensures var seen := LegibleDocs(docs, name, unread);
            EdgesOf(pairs, false) == CollEdges(seen) && EdgesOf(pairs, true) == Flipped(CollEdges(seen))
  {
    hide EdgeOf, CollEdges, EdgesOf, Flipped, ListsEdges;
    pairs := [];
    NoEdges();
    var todo := docs.Keys;
    ghost var done: map<Bytes, Doc> := map[];
    while todo != {}
      invariant todo <= docs.Keys
      invariant done == map id | id in docs && id !in todo && (name, id) !in unread :: docs[id]
      invariant ListsEdges(pairs, CollEdges(done))
      decreases |todo|
    {
      var id :| id in todo;
      todo := todo - {id};
      if (name, id) in unread {
        continue;
      }
      var e := EdgeOf(docs[id]);
      CollEdgesAdd(done, id, docs[id]);
      if e.Some? {
        OneMoreEdge(pairs, CollEdges(done), e.value);
        pairs := pairs + [e.value];
      }
      done := done[id := docs[id]];
    }
    assert done == LegibleDocs(docs, name, unread);
    PairsAreEdges(pairs, CollEdges(done));
  }

  ghost predicate ListsEdges(pairs: seq<(Vertex, Vertex)>, e: Edges)
  {
    (forall i | 0 <= i < |pairs| :: pairs[i] in e) && forall p <- e :: p in pairs
  }

  lemma NoEdges()
    ensures CollEdges(map[]) == {} && ListsEdges([], CollEdges(map[]))
  {
  }

  lemma OneMoreEdge(pairs: seq<(Vertex, Vertex)>, e: Edges, x: (Vertex, Vertex))
    requires ListsEdges(pairs, e)
    ensures ListsEdges(pairs + [x], e + {x})
  {
  }

  lemma CollEdgesAdd(docs: map<Bytes, Doc>, id: Bytes, d: Doc)
    requires id !in docs
    ensures CollEdges(docs[id := d])
            == CollEdges(docs) + (if EdgeOf(d).Some? then {EdgeOf(d).value} else {})
  {
    var more := docs[id := d];
    forall p | p in CollEdges(docs)
      ensures p in CollEdges(more)
    {
      var j :| j in docs && EdgeOf(docs[j]).Some? && p == EdgeOf(docs[j]).value;
      assert j in more && more[j] == docs[j];
    }
    if EdgeOf(d).Some? { assert id in more && more[id] == d; }
  }

  lemma PairsAreEdges(pairs: seq<(Vertex, Vertex)>, e: Edges)
    requires ListsEdges(pairs, e)
    ensures EdgesOf(pairs, false) == e && EdgesOf(pairs, true) == Flipped(e)
  {
    forall p | p in e
      ensures p in EdgesOf(pairs, false) && Flip(p) in EdgesOf(pairs, true)
    {
      var i :| 0 <= i < |pairs| && pairs[i] == p;
    }
  }

  /** The documents of the edge collections in a set of names, by edge type. */
  ghost predicate BuiltFor(colls: Colls, names: set<Bytes>, out: map<Bytes, Adj>, inn: map<Bytes, Adj>)
  {
    forall edgeType: Bytes ::
      if edgeType != [] && EdgeCollName(edgeType) in names then CoherentFor(colls, out, inn, edgeType)
      else edgeType !in out && edgeType !in inn
  }

  method BuildAll(colls: Colls, unread: set<(Bytes, Bytes)>) returns (out: map<Bytes, Adj>, inn: map<Bytes, Adj>)
    ensures Coherent(Legible(colls, unread), out, inn)
  {
    hide LegibleDocs, Represents, CollEdges;
    out, inn := map[], map[];
    var todo := colls.Keys;
    ghost var seen := Legible(colls, unread);
    while todo != {}
      invariant todo <= colls.Keys && BuiltFor(seen, colls.Keys - todo, out, inn)
      decreases |todo|
    {
      var name :| name in todo;
      todo := todo - {name};
      if IsEdgeColl(name) {
        var edgeType := name[|EDGE_PREFIX|..];
        var pairs := CollectPairs(colls[name], name, unread);
        var fwd := BuildAdj(pairs, false);
        var back := BuildAdj(pairs, true);
        BuiltOne(seen, colls.Keys - todo - {name}, out, inn, name, fwd, back);
        out, inn := out[edgeType := fwd], inn[edgeType := back];
      } else {
        BuiltSkip(seen, colls.Keys - todo - {name}, out, inn, name);
      }
      assert colls.Keys - todo == (colls.Keys - todo - {name}) + {name};
    }
    BuiltIsCoherent(seen, out, inn);
  }

  lemma BuiltIsCoherent(colls: Colls, out: map<Bytes, Adj>, inn: map<Bytes, Adj>)
    requires BuiltFor(colls, colls.Keys, out, inn)
    ensures Coherent(colls, out, inn)
  {
    hide Represents;
    assert Flipped({}) == {};
  }

  lemma BuiltSkip(colls: Colls, names: set<Bytes>, out: map<Bytes, Adj>, inn: map<Bytes, Adj>, name: Bytes)
    requires BuiltFor(colls, names, out, inn) && !IsEdgeColl(name)
    ensures BuiltFor(colls, names + {name}, out, inn)
  {
    hide CoherentFor;
    assert forall edgeType: Bytes | edgeType != [] :: EdgeCollName(edgeType) != name;
  }

  lemma BuiltOne(colls: Colls, names: set<Bytes>, out: map<Bytes, Adj>, inn: map<Bytes, Adj>, name: Bytes,
      fwd: Adj, back: Adj)
    requires BuiltFor(colls, names, out, inn) && IsEdgeColl(name) && name in colls
    requires Represents(fwd, CollEdges(colls[name])) && Represents(back, Flipped(CollEdges(colls[name])))
    ensures var t := name[|EDGE_PREFIX|..];
            BuiltFor(colls, names + {name}, out[t := fwd], inn[t := back])
  {
    hide Represents;
    var t := name[|EDGE_PREFIX|..];
    assert EdgeCollName(t) == name;
    forall edgeType: Bytes
      ensures edgeType == t <==> EdgeCollName(edgeType) == name
    {
      assert EdgeCollName(edgeType)[|EDGE_PREFIX|..] == edgeType;
    }
  }
}
