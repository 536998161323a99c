/** Breadth-first search over the adjacency snapshots: bounded shortest path and
    bounded traversal, against a definition of distance by paths. */
module Traversal {
  import opened ByteCodec
  import opened Reversal
  import opened SortedLists
  import opened Adjacency

  type Edges = set<(Vertex, Vertex)>
  datatype Item = Item(v: Vertex, d: nat)
  datatype Direction = Outgoing | Incoming | Both

  const DEFAULT_TRAVERSE_DEPTH: int := 5
  const MAX_TRAVERSE_DEPTH: int := 32
  const DEFAULT_TRAVERSE_LIMIT: int := 10000
  const MAX_TRAVERSE_LIMIT: int := 100000
  const DEFAULT_PATH_DEPTH: int := 6
  const MAX_PATH_DEPTH: int := 32

  /** A request is replaced by the default when not positive and capped at most. */
  function Clamp(asked: int, dflt: int, most: int): (n: int)
    requires 0 < dflt <= most
    ensures 0 < n <= most
    ensures 0 < asked <= most ==> n == asked
    ensures asked <= 0 ==> n == dflt
    ensures asked > most ==> n == most
  {
    var n := if asked <= 0 then dflt else asked;
    if n > most then most else n
  }

  /** The bounds a request ends up with: depth 5 and 10,000 results unless asked
      otherwise, and never more than 32 and 100,000; 6 and 32 for a path. */
  lemma RequestBounds(asked: int)
    ensures Clamp(asked, DEFAULT_TRAVERSE_DEPTH, MAX_TRAVERSE_DEPTH)
            == if asked <= 0 then 5 else if asked <= 32 then asked else 32
    ensures Clamp(asked, DEFAULT_TRAVERSE_LIMIT, MAX_TRAVERSE_LIMIT)
            == if asked <= 0 then 10_000 else if asked <= 100_000 then asked else 100_000
    ensures Clamp(asked, DEFAULT_PATH_DEPTH, MAX_PATH_DEPTH)
            == if asked <= 0 then 6 else if asked <= 32 then asked else 32
  {
  }

  // ---------------------------------------------------------------- paths and distance

  predicate IsPath(e: Edges, p: seq<Vertex>)
  {
    p != [] && forall i | 0 < i < |p| :: (p[i - 1], p[i]) in e
  }

  predicate PathBetween(e: Edges, p: seq<Vertex>, from: Vertex, to: Vertex)
  {
    IsPath(e, p) && p[0] == from && p[|p| - 1] == to
  }

  /** d edges are enough and necessary. */
  ghost predicate AtDistance(e: Edges, from: Vertex, v: Vertex, d: nat)
  {
    && (exists p: seq<Vertex> :: PathBetween(e, p, from, v) && |p| == d + 1)
    && (forall p: seq<Vertex> :: PathBetween(e, p, from, v) ==> |p| >= d + 1)
  }

  /** A real path, and none between the same ends is shorter. */
  ghost predicate Shortest(e: Edges, p: seq<Vertex>, from: Vertex, to: Vertex)
  {
    PathBetween(e, p, from, to) && forall q: seq<Vertex> :: PathBetween(e, q, from, to) ==> |p| <= |q|
  }

  /** Every path between the ends has more than d edges. */
  ghost predicate TooFar(e: Edges, from: Vertex, to: Vertex, d: nat)
  {
    forall q: seq<Vertex> :: PathBetween(e, q, from, to) ==> |q| > d + 1
  }

  /** The graph is built from documents whose two ends are non-empty strings. */
  predicate EndsNamed(e: Edges) { forall p <- e :: p.0 != [] && p.1 != [] }

  // ---------------------------------------------------------------- the search invariant

  /** The queue: every seen vertex once, with the length of its recorded path, in
      order of depth and spanning at most two depths from the front on. */
  ghost predicate QueueOk(queue: seq<Item>, paths: map<Vertex, seq<Vertex>>, done: nat)
  {
    && done <= |queue|
    && (forall i | 0 <= i < |queue| :: queue[i].v in paths && |paths[queue[i].v]| == queue[i].d + 1)
    && (forall i, j | 0 <= i < j < |queue| :: queue[i].v != queue[j].v && queue[i].d <= queue[j].d)
    && (done < |queue| ==> forall j | done <= j < |queue| :: queue[j].d <= queue[done].d + 1)
    && (forall v <- paths :: |paths[v]| > 0 && Item(v, |paths[v]| - 1) in queue)
  }

  ghost predicate PathsOk(e: Edges, start: Vertex, paths: map<Vertex, seq<Vertex>>)
  {
    && start in paths && paths[start] == [start]
    && forall v <- paths :: PathBetween(e, paths[v], start, v)
  }

  /** Every edge out of a finished vertex above the depth bound leads to a seen one,
      at most one step deeper. */
  ghost predicate ClosedUnder(e: Edges, queue: seq<Item>, paths: map<Vertex, seq<Vertex>>, done: nat, maxDepth: nat)
    requires done <= |queue|
  {
    forall i, w: Vertex | 0 <= i < done && queue[i].d < maxDepth && (queue[i].v, w) in e ::
      w in paths && |paths[w]| <= queue[i].d + 2
  }

  /** Depths below this are completely explored. */
  function Explored(queue: seq<Item>, done: nat, maxDepth: nat): nat
    requires done <= |queue|
  {
    if done < |queue| then queue[done].d else maxDepth
  }

  /** No path reaches a vertex earlier than the search did. */
  lemma {:induction false} NoShortcut(e: Edges, start: Vertex, queue: seq<Item>, paths: map<Vertex, seq<Vertex>>,
                                      done: nat, maxDepth: nat, p: seq<Vertex>, i: nat)
    requires QueueOk(queue, paths, done) && PathsOk(e, start, paths) && ClosedUnder(e, queue, paths, done, maxDepth)
    requires IsPath(e, p) && p[0] == start && i < |p|
    requires i <= Explored(queue, done, maxDepth) && i <= maxDepth
    ensures p[i] in paths && |paths[p[i]]| <= i + 1
  {
    if i > 0 {
      NoShortcut(e, start, queue, paths, done, maxDepth, p, i - 1);
      var v := p[i - 1];
      var item := Item(v, |paths[v]| - 1);
      assert item in queue;
      var j :| 0 <= j < |queue| && queue[j] == item;
      assert j < done;
      assert (queue[j].v, p[i]) in e;
    }
  }

  /** The vertex at the front of the queue is reported at its true distance. */
  lemma FrontDistance(e: Edges, start: Vertex, queue: seq<Item>, paths: map<Vertex, seq<Vertex>>, done: nat,
      maxDepth: nat)
    requires QueueOk(queue, paths, done) && PathsOk(e, start, paths) && ClosedUnder(e, queue, paths, done, maxDepth)
    requires done < |queue| && queue[done].d <= maxDepth
    ensures AtDistance(e, start, queue[done].v, queue[done].d)
  {
    var it := queue[done];
    assert PathBetween(e, paths[it.v], start, it.v);
    forall p: seq<Vertex> | PathBetween(e, p, start, it.v)
      ensures |p| >= it.d + 1
    {
      if |p| < it.d + 1 {
        NoShortcut(e, start, queue, paths, done, maxDepth, p, |p| - 1);
      }
    }
  }

  lemma QueueDiscovers(queue: seq<Item>, paths: map<Vertex, seq<Vertex>>, done: nat, n: Vertex)
    requires QueueOk(queue, paths, done) && done < |queue| && n !in paths
    ensures var ps := paths[n := paths[queue[done].v] + [n]];
            QueueOk(queue + [Item(n, queue[done].d + 1)], ps, done)
  {
    var cur := queue[done];
    var q := queue + [Item(n, cur.d + 1)];
    var ps := paths[n := paths[cur.v] + [n]];
    assert q[|queue|] == Item(n, cur.d + 1);
    forall v <- ps
      ensures |ps[v]| > 0 && Item(v, |ps[v]| - 1) in q
    {
      if v != n { assert Item(v, |paths[v]| - 1) in queue; }
    }
    forall i | 0 <= i < |queue|
      ensures q[i].v != n && q[i].d <= cur.d + 1
    {
      if i < done { assert queue[i].d <= queue[done].d; }
    }
  }

  lemma PathsDiscover(e: Edges, start: Vertex, paths: map<Vertex, seq<Vertex>>, v: Vertex, n: Vertex)
    requires PathsOk(e, start, paths) && v in paths && (v, n) in e && n !in paths
    ensures PathsOk(e, start, paths[n := paths[v] + [n]])
  {
    assert PathBetween(e, paths[v], start, v);
  }

  /** Discovering a new neighbour of the front vertex keeps the search consistent. */
  lemma Discover(e: Edges, start: Vertex, queue: seq<Item>, paths: map<Vertex, seq<Vertex>>, done: nat,
      maxDepth: nat, n: Vertex)
    requires QueueOk(queue, paths, done) && PathsOk(e, start, paths) && ClosedUnder(e, queue, paths, done, maxDepth)
    requires done < |queue| && (queue[done].v, n) in e && n !in paths
    ensures queue[done].v in paths
    ensures var q := queue + [Item(n, queue[done].d + 1)];
            var ps := paths[n := paths[queue[done].v] + [n]];
            QueueOk(q, ps, done) && PathsOk(e, start, ps) && ClosedUnder(e, q, ps, done, maxDepth)
  {
    QueueDiscovers(queue, paths, done, n);
    PathsDiscover(e, start, paths, queue[done].v, n);
    hide QueueOk, PathsOk;
  }

  /** Finishing the front vertex once all its neighbours are seen. */
  lemma Finish(e: Edges, queue: seq<Item>, paths: map<Vertex, seq<Vertex>>, done: nat, maxDepth: nat)
    requires QueueOk(queue, paths, done) && ClosedUnder(e, queue, paths, done, maxDepth) && done < |queue|
    requires queue[done].d < maxDepth ==>
      forall w: Vertex | (queue[done].v, w) in e :: w in paths && |paths[w]| <= queue[done].d + 2
    ensures QueueOk(queue, paths, done + 1) && ClosedUnder(e, queue, paths, done + 1, maxDepth)
  {
  }

  /** A vertex seen while the front is being expanded is at most one step deeper. */
  lemma SeenIsNear(queue: seq<Item>, paths: map<Vertex, seq<Vertex>>, done: nat, n: Vertex)
    requires QueueOk(queue, paths, done) && done < |queue| && n in paths
    ensures |paths[n]| <= queue[done].d + 2
  {
    assert Item(n, |paths[n]| - 1) in queue;
    var j :| 0 <= j < |queue| && queue[j] == Item(n, |paths[n]| - 1);
    if j < done { assert queue[j].d <= queue[done].d; }
  }

  // ---------------------------------------------------------------- shortest path

  /** prev records each recorded path's last step; the start has no predecessor. */
  ghost predicate PrevOk(prev: map<Vertex, Vertex>, paths: map<Vertex, seq<Vertex>>, start: Vertex)
  {
    && prev.Keys == paths.Keys && [] !in paths && start in paths
    && (forall v <- paths :: paths[v] != [] && paths[v][|paths[v]| - 1] == v)
    && prev[start] == [] && paths[start] == [start]
    && forall v <- paths | v != start :: prev[v] in paths && paths[v] == paths[prev[v]] + [v]
  }

  method WalkBack(prev: map<Vertex, Vertex>, ghost paths: map<Vertex, seq<Vertex>>, start: Vertex, to: Vertex)
    returns (path: seq<Vertex>)
    requires PrevOk(prev, paths, start) && to in paths
    ensures Reversed(path) == paths[to]
  {
    path := [to];
    var x := to;
    PrevStep(prev, paths, start, to);
    assert Reversed(path) == [to] && paths[to] == paths[to][..|paths[to]| - 1] + [to];
    hide PrevOk, Reversed;
    while true
      invariant x in paths && paths[x] != [] && paths[to] == paths[x][..|paths[x]| - 1] + Reversed(path)
      decreases |paths[x]|
    {
      PrevStep(prev, paths, start, x);
      ghost var at := x;
      x := prev[x];
      if x == [] {
        assert [] + Reversed(path) == Reversed(path);
        return;
      }
      PrevStep(prev, paths, start, x);
      BackOne(paths, at, x, path);
      path := path + [x];
    }
  }

  lemma PrevStep(prev: map<Vertex, Vertex>, paths: map<Vertex, seq<Vertex>>, start: Vertex, at: Vertex)
    requires PrevOk(prev, paths, start) && at in paths
    ensures at in prev && paths[at] != [] && paths[at][|paths[at]| - 1] == at
    ensures prev[at] == [] ==> paths[at][..|paths[at]| - 1] == []
    ensures prev[at] != [] ==> prev[at] in paths && paths[at] == paths[prev[at]] + [at]
  {
  }

  lemma BackOne(paths: map<Vertex, seq<Vertex>>, at: Vertex, x: Vertex, path: seq<Vertex>)
    requires at in paths && x in paths && paths[at] == paths[x] + [at]
    requires paths[x] != [] && paths[x][|paths[x]| - 1] == x
    ensures paths[at][..|paths[at]| - 1] + Reversed(path) == paths[x][..|paths[x]| - 1] + Reversed(path + [x])
    ensures |paths[x]| < |paths[at]|
  {
    assert Reversed(path + [x]) == [x] + Reversed(path);
    assert paths[at][..|paths[at]| - 1] == paths[x][..|paths[x]| - 1] + [x];
  }

  /** Walk prev back from to, then reverse: the recorded path. */
  method Reconstruct(prev: map<Vertex, Vertex>, ghost paths: map<Vertex, seq<Vertex>>, start: Vertex, to: Vertex)
    returns (path: seq<Vertex>)
    requires PrevOk(prev, paths, start) && to in paths
    ensures path == paths[to]
  {
    path := WalkBack(prev, paths, start, to);
    path := Reverse(path);
  }

  /** The first sighting of a vertex other than through a recorded path is optimal:
      any shorter path would have shown it before. */
  lemma FoundShortest(e: Edges, start: Vertex, queue: seq<Item>, paths: map<Vertex, seq<Vertex>>, done: nat,
                      maxDepth: nat, to: Vertex)
    requires QueueOk(queue, paths, done) && PathsOk(e, start, paths) && ClosedUnder(e, queue, paths, done, maxDepth)
    requires done < |queue| && queue[done].d < maxDepth && to !in paths && (queue[done].v, to) in e
    ensures var found := paths[queue[done].v] + [to];
            Shortest(e, found, start, to) && |found| == queue[done].d + 2
  {
    assert PathBetween(e, paths[queue[done].v], start, queue[done].v);
    forall q: seq<Vertex> | PathBetween(e, q, start, to)
      ensures |q| >= queue[done].d + 2
    {
      if |q| <= queue[done].d + 1 {
        NoShortcut(e, start, queue, paths, done, maxDepth, q, |q| - 1);
      }
    }
  }

  lemma PrevSnoc(prev: map<Vertex, Vertex>, paths: map<Vertex, seq<Vertex>>, start: Vertex, v: Vertex, n: Vertex)
    requires PrevOk(prev, paths, start) && v in paths && n !in paths && n != []
    ensures PrevOk(prev[n := v], paths[n := paths[v] + [n]], start)
  {
  }

  lemma EdgeEnds(e: Edges, v: Vertex, n: Vertex)
    requires (v, n) in e
    ensures v in VertexSet(e) && n in VertexSet(e)
  {
  }

  ghost predicate SearchOk(e: Edges, start: Vertex, queue: seq<Item>, paths: map<Vertex, seq<Vertex>>, done: nat,
      maxDepth: nat)
  {
    && QueueOk(queue, paths, done) && PathsOk(e, start, paths) && ClosedUnder(e, queue, paths, done, maxDepth)
    && paths.Keys <= VertexSet(e) + {start}
    && forall i | 0 <= i < |queue| :: queue[i].d <= maxDepth
  }

  lemma {:induction false} SearchStarts(e: Edges, start: Vertex, maxDepth: nat)
    ensures SearchOk(e, start, [Item(start, 0)], map[start := [start]], 0, maxDepth)
  {
    assert [Item(start, 0)][0] == Item(start, 0);
  }

  lemma SearchDiscovers(e: Edges, start: Vertex, queue: seq<Item>, paths: map<Vertex, seq<Vertex>>, done: nat,
      maxDepth: nat, n: Vertex)
    requires SearchOk(e, start, queue, paths, done, maxDepth)
    requires done < |queue| && queue[done].d < maxDepth && (queue[done].v, n) in e && n !in paths
    ensures queue[done].v in paths
    ensures SearchOk(e, start, queue + [Item(n, queue[done].d + 1)], paths[n := paths[queue[done].v] + [n]],
        done, maxDepth)
  {
    Discover(e, start, queue, paths, done, maxDepth, n);
    EdgeEnds(e, queue[done].v, n);
  }

  lemma SearchFinishes(e: Edges, start: Vertex, queue: seq<Item>, paths: map<Vertex, seq<Vertex>>, done: nat,
      maxDepth: nat)
    requires SearchOk(e, start, queue, paths, done, maxDepth) && done < |queue|
    requires queue[done].d < maxDepth ==> forall w: Vertex | (queue[done].v, w) in e :: w in paths
    ensures SearchOk(e, start, queue, paths, done + 1, maxDepth)
  {
    forall w: Vertex | w in paths
      ensures |paths[w]| <= queue[done].d + 2
    {
      SeenIsNear(queue, paths, done, w);
    }
    Finish(e, queue, paths, done, maxDepth);
  }

  lemma SearchExhausted(e: Edges, start: Vertex, queue: seq<Item>, paths: map<Vertex, seq<Vertex>>,
      maxDepth: nat, to: Vertex)
    requires SearchOk(e, start, queue, paths, |queue|, maxDepth) && to !in paths
    ensures TooFar(e, start, to, maxDepth)
  {
    forall q: seq<Vertex> | PathBetween(e, q, start, to)
      ensures |q| > maxDepth + 1
    {
      if |q| <= maxDepth + 1 {
        NoShortcut(e, start, queue, paths, |queue|, maxDepth, q, |q| - 1);
      }
    }
  }

  /** One turn of the path search: look at every neighbour of the front vertex. */
  method Expand(out: Adj, ghost e: Edges, from: Vertex, to: Vertex, maxDepth: nat,
                queue0: seq<Item>, prev0: map<Vertex, Vertex>, ghost paths0: map<Vertex, seq<Vertex>>, head: nat)
    returns (queue: seq<Item>, prev: map<Vertex, Vertex>, ghost paths: map<Vertex, seq<Vertex>>, found: bool)
    requires Represents(out, e) && EndsNamed(e)
    requires SearchOk(e, from, queue0, paths0, head, maxDepth) && head < |queue0|
    requires PrevOk(prev0, paths0, from) && to !in paths0
    ensures PrevOk(prev, paths, from) && (found <==> to in paths) && paths0.Keys <= paths.Keys
    ensures !found ==> SearchOk(e, from, queue, paths, head + 1, maxDepth)
    ensures !found && paths.Keys == paths0.Keys ==> queue == queue0
    ensures !found ==> |queue| > head
    ensures found ==> Shortest(e, paths[to], from, to) && |paths[to]| <= maxDepth + 1
  {
    hide QueueOk, PathsOk, ClosedUnder, PrevOk, Ascending, NeighborsOf, InBounds, Shortest;
    queue, prev, paths, found := queue0, prev0, paths0, false;
    var cur := queue0[head];
    assert forall v: Vertex :: v in prev <==> v in paths by { PrevKeys(prev, paths, from); }
    if cur.d >= maxDepth {
      SearchFinishes(e, from, queue, paths, head, maxDepth);
      return;
    }
    var ns := CollectNeighbors(out, cur.v);
    for i := 0 to |ns|
      invariant SearchOk(e, from, queue, paths, head, maxDepth) && head < |queue| && queue[head] == cur
      invariant PrevOk(prev, paths, from) && prev.Keys == paths.Keys && to !in paths && !found
      invariant paths0.Keys <= paths.Keys && (paths.Keys == paths0.Keys ==> queue == queue0)
      invariant forall j | 0 <= j < i :: ns[j] in paths
    {
      var n := ns[i];
      assert n in ns && (cur.v, n) in e;
      if n in prev {
        continue;
      }
      SearchDiscovers(e, from, queue, paths, head, maxDepth, n);
      PrevSnoc(prev, paths, from, cur.v, n);
      prev := prev[n := cur.v];
      if n == to {
        Sighted(e, from, queue, paths, head, maxDepth, to);
        paths := paths[n := paths[cur.v] + [n]];
        found := true;
        return;
      }
      queue := queue + [Item(n, cur.d + 1)];
      paths := paths[n := paths[cur.v] + [n]];
    }
    forall w: Vertex | (cur.v, w) in e
      ensures w in paths
    {
      assert w in ns;
    }
    SearchFinishes(e, from, queue, paths, head, maxDepth);
  }

  lemma Sighted(e: Edges, start: Vertex, queue: seq<Item>, paths: map<Vertex, seq<Vertex>>, done: nat,
                maxDepth: nat, to: Vertex)
    requires SearchOk(e, start, queue, paths, done, maxDepth)
    requires done < |queue| && queue[done].d < maxDepth && to !in paths && (queue[done].v, to) in e
    ensures queue[done].v in paths
    ensures var found := paths[queue[done].v] + [to];
            Shortest(e, found, start, to) && |found| <= maxDepth + 1
  {
    FoundShortest(e, start, queue, paths, done, maxDepth, to);
  }

  lemma PrevKeys(prev: map<Vertex, Vertex>, paths: map<Vertex, seq<Vertex>>, start: Vertex)
    requires PrevOk(prev, paths, start)
    ensures prev.Keys == paths.Keys
  {
  }

  lemma NoEdgesNoPath(e: Edges, from: Vertex, to: Vertex)
    requires e == {} && from != to
    ensures forall d: nat :: TooFar(e, from, to, d)
  {
    forall q: seq<Vertex>
      ensures !PathBetween(e, q, from, to)
    {
      assert |q| > 1 ==> (q[1 - 1], q[1]) !in e;
    }
  }

  lemma SeenGrows(all: set<Vertex>, a: set<Vertex>, b: set<Vertex>)
    requires a <= b <= all
    ensures a != b ==> all - b < all - a
  {
    if a != b {
      var x :| x in b && x !in a;
      assert x in all - a && x !in all - b;
    }
  }

  lemma PrevStarts(start: Vertex)
    requires start != []
    ensures PrevOk(map[start := []], map[start := [start]], start)
  {
  }

  method SearchPath(out: Adj, ghost e: Edges, from: Vertex, to: Vertex, maxDepth: nat) returns (r: Option<seq<Vertex>>)
    requires from != [] && from != to && Represents(out, e) && EndsNamed(e)
    ensures match r
            case Some(p) => Shortest(e, p, from, to) && |p| <= maxDepth + 1
            case None => TooFar(e, from, to, maxDepth)
  {
    hide SearchOk, Shortest, TooFar, Represents, VertexSet, PrevOk, EndsNamed;
    var prev: map<Vertex, Vertex> := map[from := []];
    var queue := [Item(from, 0)];
    ghost var paths := map[from := [from]];
    SearchStarts(e, from, maxDepth);
    ghost var all := VertexSet(e) + {from};
    var head := 0;
    PrevStarts(from);
    SearchBounds(e, from, queue, paths, head, maxDepth);
    var found := false;
    while head < |queue| && !found
      invariant PrevOk(prev, paths, from) && (found <==> to in paths)
      invariant !found ==> head <= |queue| && SearchOk(e, from, queue, paths, head, maxDepth) && paths.Keys <= all
      invariant found ==> Shortest(e, paths[to], from, to) && |paths[to]| <= maxDepth + 1
      decreases !found, all - paths.Keys, |queue| - head
    {
      ghost var seen := paths.Keys;
      queue, prev, paths, found := Expand(out, e, from, to, maxDepth, queue, prev, paths, head);
      if !found {
        head := head + 1;
        SearchBounds(e, from, queue, paths, head, maxDepth);
        SeenGrows(all, seen, paths.Keys);
      }
    }
    if found {
      var path := Reconstruct(prev, paths, from, to);
      return Some(path);
    }
    SearchExhausted(e, from, queue, paths, maxDepth, to);
    return None;
  }

  /** The unweighted shortest path, or nothing when every path is too long. */
  method ShortestPath(out: Option<Adj>, ghost e: Edges, from: Vertex, to: Vertex, askedDepth: int)
    returns (r: Option<seq<Vertex>>)
    requires from != [] && to != []
    requires match out case None => e == {} case Some(g) => Represents(g, e)
    requires EndsNamed(e)
    ensures var maxDepth := Clamp(askedDepth, DEFAULT_PATH_DEPTH, MAX_PATH_DEPTH);
            match r
            case Some(p) => Shortest(e, p, from, to) && |p| <= maxDepth + 1
            case None => TooFar(e, from, to, maxDepth)
  {
    if from == to {
      assert PathBetween(e, [from], from, to);
      return Some([from]);
    }
    hide Shortest, TooFar, Represents;
    var maxDepth := Clamp(askedDepth, DEFAULT_PATH_DEPTH, MAX_PATH_DEPTH);
    if out.None? {
      NoEdgesNoPath(e, from, to);
      return None;
    }
    r := SearchPath(out.value, e, from, to, maxDepth);
  }

  lemma SearchBounds(e: Edges, start: Vertex, queue: seq<Item>, paths: map<Vertex, seq<Vertex>>, done: nat, maxDepth: nat)
    requires SearchOk(e, start, queue, paths, done, maxDepth)
    ensures done <= |queue| && paths.Keys <= VertexSet(e) + {start}
  {
  }

  function VertexSet(e: Edges): set<Vertex> { (set p | p in e :: p.0) + (set p | p in e :: p.1) }

  // ---------------------------------------------------------------- traversal

  function Flipped(e: Edges): Edges { set p | p in e :: Flip(p) }

  /** The edges a traversal may follow. */
  function Followed(e: Edges, dir: Direction): Edges
  {
    match dir
    case Outgoing => e
    case Incoming => Flipped(e)
    case Both => e + Flipped(e)
  }

  ghost predicate SnapshotOf(g: Option<Adj>, e: Edges)
  {
    match g case None => e == {} case Some(a) => Represents(a, e)
  }

  /** The neighbours in one direction; no snapshot means no edges of that type. */
  method OneSide(g: Option<Adj>, ghost e: Edges, v: Vertex) returns (ns: seq<Vertex>)
    requires SnapshotOf(g, e)
    ensures Ascending(ns) && forall w: Vertex :: w in ns <==> (v, w) in e
  {
    if g.None? {
      return [];
    }
    ns := CollectNeighbors(g.value, v);
  }

  /** The neighbours to follow, ascending and without repetition. */
  method AdjFor(out: Option<Adj>, inn: Option<Adj>, ghost e: Edges, dir: Direction, v: Vertex) returns (ns: seq<Vertex>)
    requires SnapshotOf(out, e) && SnapshotOf(inn, Flipped(e))
    ensures Ascending(ns) && forall w: Vertex :: w in ns <==> (v, w) in Followed(e, dir)
  {
    match dir
    case Outgoing => ns := OneSide(out, e, v);
    case Incoming => ns := OneSide(inn, Flipped(e), v);
    case Both =>
      var a := OneSide(out, e, v);
      var b := OneSide(inn, Flipped(e), v);
      ns := SortedMembers((set i | 0 <= i < |a| :: a[i]) + (set i | 0 <= i < |b| :: b[i]));
  }

  /** The part of a list of items at depth min or more, in order. */
  function AtLeast(items: seq<Item>, min: nat): (r: seq<Item>)
    ensures forall it: Item :: it in r <==> it in items && it.d >= min
  {
    if items == [] then [] else
      var n := |items| - 1;
      assert items == items[..n] + [items[n]];
      AtLeast(items[..n], min) + (if items[n].d >= min then [items[n]] else [])
  }

  predicate InOrder(items: seq<Item>)
  {
    forall i, j | 0 <= i < j < |items| :: items[i].v != items[j].v && items[i].d <= items[j].d
  }

  lemma {:induction false} AtLeastInOrder(items: seq<Item>, min: nat)
    requires InOrder(items)
    ensures InOrder(AtLeast(items, min))
  {
    if items != [] {
      var n := |items| - 1;
      AtLeastInOrder(items[..n], min);
      var front := AtLeast(items[..n], min);
      forall i | 0 <= i < |front|
        ensures front[i].v != items[n].v && front[i].d <= items[n].d
      {
        assert front[i] in items[..n];
      }
    }
  }

  /** One turn of a traversal: queue every neighbour not seen before. */
  method ExpandAll(out: Option<Adj>, inn: Option<Adj>, ghost e: Edges, dir: Direction, start: Vertex, maxDepth: nat,
                   queue0: seq<Item>, visited0: set<Vertex>, ghost paths0: map<Vertex, seq<Vertex>>, head: nat)
    returns (queue: seq<Item>, visited: set<Vertex>, ghost paths: map<Vertex, seq<Vertex>>)
    requires SnapshotOf(out, e) && SnapshotOf(inn, Flipped(e))
    requires SearchOk(Followed(e, dir), start, queue0, paths0, head, maxDepth) && head < |queue0|
    requires visited0 == paths0.Keys
    ensures SearchOk(Followed(e, dir), start, queue, paths, head + 1, maxDepth) && visited == paths.Keys
    ensures queue0 <= queue && paths0.Keys <= paths.Keys && (paths.Keys == paths0.Keys ==> queue == queue0)
  {
    hide SearchOk, Ascending, Followed, SnapshotOf;
    ghost var f := Followed(e, dir);
    queue, visited, paths := queue0, visited0, paths0;
    var cur := queue0[head];
    if cur.d >= maxDepth {
      SearchFinishes(f, start, queue, paths, head, maxDepth);
      return;
    }
    var ns := AdjFor(out, inn, e, dir, cur.v);
    for i := 0 to |ns|
      invariant SearchOk(f, start, queue, paths, head, maxDepth) && head < |queue| && queue[head] == cur
      invariant visited == paths.Keys && queue0 <= queue
      invariant paths0.Keys <= paths.Keys && (paths.Keys == paths0.Keys ==> queue == queue0)
      invariant forall j | 0 <= j < i :: ns[j] in paths
    {
      var n := ns[i];
      assert n in ns && (cur.v, n) in f;
      if n in visited {
        continue;
      }
      SearchDiscovers(f, start, queue, paths, head, maxDepth, n);
      visited := visited + {n};
      queue := queue + [Item(n, cur.d + 1)];
      paths := paths[n := paths[cur.v] + [n]];
    }
    forall w: Vertex | (cur.v, w) in f
      ensures w in paths
    {
      assert w in ns;
    }
    SearchFinishes(f, start, queue, paths, head, maxDepth);
  }

  lemma FrontFacts(e: Edges, start: Vertex, queue: seq<Item>, paths: map<Vertex, seq<Vertex>>, head: nat, maxDepth: nat)
    requires SearchOk(e, start, queue, paths, head, maxDepth) && head < |queue|
    ensures AtDistance(e, start, queue[head].v, queue[head].d) && queue[head].d <= maxDepth
    ensures InOrder(queue)
  {
    FrontDistance(e, start, queue, paths, head, maxDepth);
  }

  /** When the queue is used up, every vertex within the depth bound went through it. */
  lemma AllQueued(e: Edges, start: Vertex, queue: seq<Item>, paths: map<Vertex, seq<Vertex>>, maxDepth: nat,
      v: Vertex, d: nat)
    requires SearchOk(e, start, queue, paths, |queue|, maxDepth)
    requires AtDistance(e, start, v, d) && d <= maxDepth
    ensures Item(v, d) in queue
  {
    hide IsPath, QueueOk, PathsOk, ClosedUnder;
    var p: seq<Vertex> :| PathBetween(e, p, start, v) && |p| == d + 1;
    NoShortcut(e, start, queue, paths, |queue|, maxDepth, p, d);
    RecordedPath(e, start, queue, paths, v);
  }

  lemma RecordedPath(e: Edges, start: Vertex, queue: seq<Item>, paths: map<Vertex, seq<Vertex>>, v: Vertex)
    requires QueueOk(queue, paths, |queue|) && PathsOk(e, start, paths) && v in paths
    ensures |paths[v]| > 0 && Item(v, |paths[v]| - 1) in queue && PathBetween(e, paths[v], start, v)
  {
    hide PathBetween;
  }

  /** What a traversal reports: each vertex once, at its true distance, nearest
      first, within the depth bounds; all of them unless the limit cut it short. */
  ghost predicate Reports(e: Edges, start: Vertex, r: seq<Item>, minDepth: nat, maxDepth: nat, limit: nat)
  {
    && InOrder(r) && |r| <= limit
    && (forall i | 0 <= i < |r| :: minDepth <= r[i].d <= maxDepth && AtDistance(e, start, r[i].v, r[i].d))
    && (|r| < limit ==>
          forall v: Vertex, d: nat | AtDistance(e, start, v, d) && minDepth <= d <= maxDepth :: Item(v, d) in r)
  }

  ghost predicate FrontOk(e: Edges, start: Vertex, queue: seq<Item>, head: nat, maxDepth: nat)
  {
    && head <= |queue| && InOrder(queue[..head])
    && forall i | 0 <= i < head :: AtDistance(e, start, queue[i].v, queue[i].d) && queue[i].d <= maxDepth
  }

  lemma FrontGrows(e: Edges, start: Vertex, queue: seq<Item>, paths: map<Vertex, seq<Vertex>>, head: nat,
      maxDepth: nat, min: nat)
    requires SearchOk(e, start, queue, paths, head, maxDepth) && head < |queue|
    requires FrontOk(e, start, queue, head, maxDepth)
    ensures FrontOk(e, start, queue, head + 1, maxDepth)
    ensures AtLeast(queue[..head + 1], min)
            == AtLeast(queue[..head], min) + (if queue[head].d >= min then [queue[head]] else [])
  {
    hide AtDistance, SearchOk;
    FrontFacts(e, start, queue, paths, head, maxDepth);
    assert queue[..head + 1][..head] == queue[..head];
  }

  lemma ReportIsRight(e: Edges, start: Vertex, queue: seq<Item>, head: nat, minDepth: nat, maxDepth: nat, limit: nat,
                      paths: map<Vertex, seq<Vertex>>)
    requires FrontOk(e, start, queue, head, maxDepth) && |AtLeast(queue[..head], minDepth)| <= limit
    requires |AtLeast(queue[..head], minDepth)| < limit ==>
               head == |queue| && SearchOk(e, start, queue, paths, head, maxDepth)
    ensures Reports(e, start, AtLeast(queue[..head], minDepth), minDepth, maxDepth, limit)
  {
    hide AtDistance, SearchOk;
    var r := AtLeast(queue[..head], minDepth);
    AtLeastInOrder(queue[..head], minDepth);
    forall i | 0 <= i < |r|
      ensures minDepth <= r[i].d <= maxDepth && AtDistance(e, start, r[i].v, r[i].d)
    {
      assert r[i] in r;
      assert r[i] in queue[..head];
    }
    if |r| < limit {
      assert queue[..head] == queue;
      forall v: Vertex, d: nat | AtDistance(e, start, v, d) && minDepth <= d <= maxDepth
        ensures Item(v, d) in r
      {
        AllQueued(e, start, queue, paths, maxDepth, v, d);
      }
    }
  }

  method Visit(out: Option<Adj>, inn: Option<Adj>, ghost e: Edges, start: Vertex, dir: Direction,
               minDepth: nat, maxDepth: nat, limit: nat) returns (result: seq<Item>)
    requires SnapshotOf(out, e) && SnapshotOf(inn, Flipped(e)) && limit > 0
    ensures Reports(Followed(e, dir), start, result, minDepth, maxDepth, limit)
  {
    hide SearchOk, Followed, SnapshotOf, Reports, FrontOk, VertexSet, AtLeast, Flipped;
    ghost var f := Followed(e, dir);
    ghost var all := VertexSet(f) + {start};
    var visited := {start};
    var queue := [Item(start, 0)];
    ghost var paths := map[start := [start]];
    SearchStarts(f, start, maxDepth);
    result := [];
    var head := 0;
    SearchBounds(f, start, queue, paths, head, maxDepth);
    FrontStarts(f, start, queue, maxDepth, minDepth);
    while head < |queue|
      invariant head <= |queue| && SearchOk(f, start, queue, paths, head, maxDepth) && visited == paths.Keys
      invariant paths.Keys <= all && FrontOk(f, start, queue, head, maxDepth)
      invariant result == AtLeast(queue[..head], minDepth) && |result| < limit
      decreases all - paths.Keys, |queue| - head
    {
      var cur := queue[head];
      FrontGrows(f, start, queue, paths, head, maxDepth, minDepth);
      if cur.d >= minDepth {
        result := result + [cur];
        if |result| >= limit {
          ReportIsRight(f, start, queue, head + 1, minDepth, maxDepth, limit, paths);
          return;
        }
      }
      ghost var seen, before := paths.Keys, queue;
      queue, visited, paths := ExpandAll(out, inn, e, dir, start, maxDepth, queue, visited, paths, head);
      head := head + 1;
      FrontSame(f, start, before, queue, head, maxDepth);
      SearchBounds(f, start, queue, paths, head, maxDepth);
      SeenGrows(all, seen, paths.Keys);
    }
    ReportIsRight(f, start, queue, head, minDepth, maxDepth, limit, paths);
  }

  /** Breadth-first traversal from start, bounded in depth and in result size. */
  method Traverse(out: Option<Adj>, inn: Option<Adj>, ghost e: Edges, start: Vertex, dir: Direction,
                  askedMin: int, askedMax: int, askedLimit: int) returns (result: seq<Item>)
    requires SnapshotOf(out, e) && SnapshotOf(inn, Flipped(e))
    ensures Reports(Followed(e, dir), start, result,
                    if askedMin < 0 then 0 else askedMin,
                    Clamp(askedMax, DEFAULT_TRAVERSE_DEPTH, MAX_TRAVERSE_DEPTH),
                    Clamp(askedLimit, DEFAULT_TRAVERSE_LIMIT, MAX_TRAVERSE_LIMIT))
  {
    hide Followed, SnapshotOf, Reports, Flipped;
    var maxDepth := Clamp(askedMax, DEFAULT_TRAVERSE_DEPTH, MAX_TRAVERSE_DEPTH);
    var limit := Clamp(askedLimit, DEFAULT_TRAVERSE_LIMIT, MAX_TRAVERSE_LIMIT);
    result := Visit(out, inn, e, start, dir, if askedMin < 0 then 0 else askedMin, maxDepth, limit);
  }

  lemma FrontStarts(e: Edges, start: Vertex, queue: seq<Item>, maxDepth: nat, min: nat)
    ensures FrontOk(e, start, queue, 0, maxDepth) && AtLeast(queue[..0], min) == []
  {
  }

  lemma FrontSame(e: Edges, start: Vertex, before: seq<Item>, queue: seq<Item>, head: nat, maxDepth: nat)
    requires before <= queue && FrontOk(e, start, before, head, maxDepth)
    ensures head <= |before| && queue[..head] == before[..head]
    ensures FrontOk(e, start, queue, head, maxDepth)
  {
    assert queue[..head] == before[..head];
  }
}
