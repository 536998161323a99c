/** Query results in pages: the split of a first batch by count and by bytes, and
    the registry that serves the rest. Documents are opaque to it. */
module Cursors {

  const DEFAULT_BATCH: int := 101
  const MAX_BATCH_BYTES: int := 16 * 0x10_0000

  // ---------------------------------------------------------------- the first batch

  function Total(sizes: seq<nat>): nat
  {
    if sizes == [] then 0 else Total(sizes[..|sizes| - 1]) + sizes[|sizes| - 1]
  }

  lemma {:induction false} TotalGrows(sizes: seq<nat>, i: nat)
    requires i <= |sizes|
    ensures Total(sizes[..i]) <= Total(sizes)
  {
    if i < |sizes| {
      TotalGrows(sizes[..|sizes| - 1], i);
      assert sizes[..|sizes| - 1][..i] == sizes[..i];
    } else {
      assert sizes[..i] == sizes;
    }
  }

  /** How many documents the count limit lets into the first batch. */
  function CountLimit(n: nat, batchSize: int, singleBatch: bool): nat
  {
    var size := if batchSize <= 0 then DEFAULT_BATCH else batchSize;
    if n > size && !singleBatch then size else n
  }

  /** Split a result: first by count, then by giving documents back one by one
      while more than one is left and the encoded batch is over the byte cap.
      sizes are the encoded sizes of the documents. */
  method SplitFirstBatch<D>(docs: seq<D>, sizes: seq<nat>, batchSize: int, singleBatch: bool)
    returns (batch: seq<D>, rest: seq<D>)
    requires |sizes| == |docs|
    ensures batch + rest == docs
    // at most 101 documents unless asked otherwise, and 16 MiB
    ensures !singleBatch && batchSize <= 0 ==> |batch| <= 101
    ensures !singleBatch && batchSize > 0 ==> |batch| <= batchSize
    ensures |batch| == |docs| || Total(sizes[..|batch| + 1]) > 16_777_216
            || (!singleBatch && |batch| == if batchSize <= 0 then 101 else batchSize)
    ensures |batch| <= CountLimit(|docs|, batchSize, singleBatch)
    ensures Total(sizes[..|batch|]) <= MAX_BATCH_BYTES || |batch| <= 1
    // and no longer batch would have done
    ensures forall k | |batch| < k <= CountLimit(|docs|, batchSize, singleBatch) ::
      Total(sizes[..k]) > MAX_BATCH_BYTES
    ensures docs != [] ==> batch != []
  {
    var size := if batchSize <= 0 then DEFAULT_BATCH else batchSize;
    batch, rest := docs, [];
    if |docs| > size && !singleBatch {
      batch, rest := docs[..size], docs[size..];
    }
    ghost var limit := CountLimit(|docs|, batchSize, singleBatch);
    var total := 0;
    for i := 0 to |batch|
      invariant total == Total(sizes[..i])
    {
      assert sizes[..i + 1][..i] == sizes[..i];
      total := total + sizes[i];
    }
    while |batch| > 1 && total > MAX_BATCH_BYTES
      invariant |batch| <= limit && batch + rest == docs && total == Total(sizes[..|batch|])
      invariant docs != [] ==> batch != []
      invariant forall k | |batch| < k <= limit :: Total(sizes[..k]) > MAX_BATCH_BYTES
      decreases |batch|
    {
      var last := |batch| - 1;
      assert sizes[..|batch|][..last] == sizes[..last];
      total := total - sizes[last];
      rest := [batch[last]] + rest;
      batch := batch[..last];
    }
  }

  // ---------------------------------------------------------------- the registry

  datatype Cursor<D> = Cursor(docs: seq<D>, pos: nat, expiry: int)
  datatype Registry<D> = Registry(next: int, m: map<int, Cursor<D>>)
  datatype Page<D> = NotFound | Page(docs: seq<D>, nextId: int)

  /** Ten minutes without use, in seconds; now is the clock the caller reads. */
  const IDLE_TTL: int := 600

  class CursorRegistry<D> {
    var next: int
    var m: map<int, Cursor<D>>

    ghost predicate Valid()
      reads this
    {
      forall id <- m :: m[id].pos <= |m[id].docs|
    }

    ghost function State(): Registry<D>
      reads this
    {
      Registry(next, m)
    }

    constructor (start: int)
      ensures Valid() && State() == Registry(start, map[])
    {
      next, m := start, map[];
    }

    method Register(docs: seq<D>, now: int) returns (id: int)
      requires Valid()
      modifies this
      ensures Valid() && id == old(next) && State() == Registered(old(State()), docs, now)
      ensures next == id + 1 && m == old(m)[id := Cursor(docs, 0, now + 600)]
    {
      id := next;
      next := next + 1;
      m := m[id := Cursor(docs, 0, now + IDLE_TTL)];
    }

    method Batch(id: int, n: int, now: int) returns (page: Page<D>)
      requires Valid()
      modifies this
      ensures Valid()
      ensures page == PageOf(old(State()), id, n, now) && State() == AfterPage(old(State()), id, n, now)
      // a live cursor gives as many of the documents left as were asked for, 101 unless said
      ensures page.Page? <==> id in old(m) && now <= old(m)[id].expiry
      ensures page.Page? ==>
                var c := old(m)[id];
                var want := if n <= 0 then 101 else n;
                && |page.docs| == (if want < |c.docs| - c.pos then want else |c.docs| - c.pos)
                && page.docs == c.docs[c.pos..c.pos + |page.docs|]
                && (page.nextId != 0 ==> m == old(m)[id := Cursor(c.docs, c.pos + |page.docs|, now + 600)])
    {
      if id !in m {
        return NotFound;
      }
      var c := m[id];
      if now > c.expiry {
        m := m - {id};
        return NotFound;
      }
      var want := if n <= 0 then DEFAULT_BATCH else n;
      var end := c.pos + want;
      if end > |c.docs| {
        end := |c.docs|;
      }
      var docs := c.docs[c.pos..end];
      if end >= |c.docs| {
        m := m - {id};
        return Page(docs, 0);
      }
      m := m[id := Cursor(c.docs, end, now + IDLE_TTL)];
      return Page(docs, id);
    }

    /** Drop every cursor that has not been used in time. */
    method Sweep(now: int)
      requires Valid()
      modifies this`m
      ensures Valid() && State() == old(State()).(m := old(m) - Expired(old(State()), now))
    {
      var todo := m.Keys;
      while todo != {}
        invariant Valid() && todo <= m.Keys && next == old(next)
        invariant m == old(m) - (Expired(old(State()), now) - todo)
        decreases todo
      {
        SomeMember(todo);
        var id :| id in todo;
        if now > m[id].expiry {
          m := m - {id};
        }
        todo := todo - {id};
      }
    }

    method Kill(ids: seq<int>) returns (killed: seq<int>, notFound: seq<int>)
      requires Valid()
      modifies this
      ensures Valid() && State() == old(State()).(m := old(m) - (set i | 0 <= i < |ids| :: ids[i]))
      ensures forall id: int :: id in killed <==> id in old(m) && id in ids
      // a live id is killed once; every other mention of an id is not found
      ensures forall i, j | 0 <= i < j < |killed| :: killed[i] != killed[j]
      ensures multiset(killed) + multiset(notFound) == multiset(ids)
    {
      killed, notFound := [], [];
      for i := 0 to |ids|
        invariant Valid() && next == old(next)
        invariant m == old(m) - (set j | 0 <= j < i :: ids[j])
        invariant forall id: int :: id in killed <==> id in old(m) && id in ids[..i]
        invariant forall j, k | 0 <= j < k < |killed| :: killed[j] != killed[k]
        invariant forall id: int :: id in killed ==> id !in m
        invariant multiset(killed) + multiset(notFound) == multiset(ids[..i])
      {
        assert ids[..i + 1] == ids[..i] + [ids[i]];
        if ids[i] in m {
          killed := killed + [ids[i]];
        } else {
          notFound := notFound + [ids[i]];
        }
        m := m - {ids[i]};
      }
      assert ids[..|ids|] == ids;
    }
  }

  lemma SomeMember(ids: set<int>)
    requires ids != {}
    ensures exists id :: id in ids
  {
    if forall id :: id !in ids { assert false; }
  }

  function Registered<D>(r: Registry<D>, docs: seq<D>, now: int): Registry<D>
  {
    Registry(r.next + 1, r.m[r.next := Cursor(docs, 0, now + IDLE_TTL)])
  }

  function PageEnd<D>(c: Cursor<D>, n: int): nat
    requires c.pos <= |c.docs|
  {
    var want := if n <= 0 then DEFAULT_BATCH else n;
    if c.pos + want > |c.docs| then |c.docs| else c.pos + want
  }

  predicate WellFormed<D>(r: Registry<D>) { forall id <- r.m :: r.m[id].pos <= |r.m[id].docs| }

  function PageOf<D>(r: Registry<D>, id: int, n: int, now: int): Page<D>
    requires WellFormed(r)
  {
    if id !in r.m || now > r.m[id].expiry then NotFound else
      var c := r.m[id];
      Page(c.docs[c.pos..PageEnd(c, n)], if PageEnd(c, n) == |c.docs| then 0 else id)
  }

  function AfterPage<D>(r: Registry<D>, id: int, n: int, now: int): Registry<D>
    requires WellFormed(r)
  {
    if id !in r.m then r
    else if now > r.m[id].expiry || PageEnd(r.m[id], n) == |r.m[id].docs| then r.(m := r.m - {id})
    else r.(m := r.m[id := Cursor(r.m[id].docs, PageEnd(r.m[id], n), now + IDLE_TTL)])
  }

  // ---------------------------------------------------------------- whole conversations

  datatype Event<D> =
    | Open(docs: seq<D>, now: int)
    | GetMore(id: int, n: int, now: int)
    | Killed(ids: set<int>)
    | Sweep(now: int)

  /** A registry together with what it was given for each id ever issued, what it
      has handed out so far, and which cursors were killed or timed out while they
      still had something to send. */
  datatype Talk<D> = Talk(r: Registry<D>, issued: map<int, seq<D>>, sent: map<int, seq<D>>, lost: set<int>)

  ghost predicate TalkOk<D>(t: Talk<D>)
  {
    && WellFormed(t.r) && t.r.next > 0
    && t.r.m.Keys <= t.issued.Keys && t.sent.Keys == t.issued.Keys
    && (forall id <- t.issued :: 0 < id < t.r.next)
    && (forall id <- t.r.m :: t.r.m[id].docs == t.issued[id] && t.r.m[id].pos < |t.r.m[id].docs|
                              && t.sent[id] == t.issued[id][..t.r.m[id].pos])
    && (forall id <- t.issued :: t.sent[id] <= t.issued[id])
    && (forall id <- t.issued | id !in t.r.m && id !in t.lost :: t.sent[id] == t.issued[id])
    && (forall id <- t.lost :: id in t.issued && id !in t.r.m && t.sent[id] != t.issued[id])
  }

  function Expired<D>(r: Registry<D>, now: int): set<int> { set id | id in r.m && now > r.m[id].expiry }

  /** A sweep takes just the cursors that a request would find expired. */
  lemma SweepAgrees<D>(r: Registry<D>, id: int, n: int, now: int)
    requires WellFormed(r) && id in r.m
    ensures id in Expired(r, now) <==> PageOf(r, id, n, now) == NotFound
  {
  }

  ghost function Step<D>(t: Talk<D>, e: Event<D>): Talk<D>
    requires WellFormed(t.r) && t.sent.Keys == t.issued.Keys && t.r.m.Keys <= t.issued.Keys
  {
    match e
    case Open(docs, now) =>
      Talk(Registered(t.r, docs, now), t.issued[t.r.next := docs], t.sent[t.r.next := []], t.lost)
    case GetMore(id, n, now) =>
      var page := PageOf(t.r, id, n, now);
      Talk(AfterPage(t.r, id, n, now), t.issued,
           if page.Page? then t.sent[id := t.sent[id] + page.docs] else t.sent,
           if id in t.r.m && now > t.r.m[id].expiry then t.lost + {id} else t.lost)
    case Killed(ids) => t.(r := t.r.(m := t.r.m - ids), lost := t.lost + ids * t.r.m.Keys)
    case Sweep(now) => t.(r := t.r.(m := t.r.m - Expired(t.r, now)), lost := t.lost + Expired(t.r, now))
  }

  /** Nothing is lost, repeated or reordered: at every moment a live cursor has sent
      exactly the part before its position, and a cursor that is gone without being
      killed or timing out has sent everything. Ids grow, so none is used twice. */
  lemma StepKeeps<D>(t: Talk<D>, e: Event<D>)
    requires TalkOk(t) && (e.Open? ==> e.docs != [])
    ensures TalkOk(Step(t, e))
    ensures e.Open? ==> t.r.next !in t.issued && t.r.next in Step(t, e).issued
    ensures Step(t, e).r.next >= t.r.next
    ensures forall id <- t.issued :: id in Step(t, e).issued && Step(t, e).issued[id] == t.issued[id]
  {
    if e.GetMore? { GetMoreKeeps(t, e.id, e.n, e.now); }
  }

  lemma GetMoreKeeps<D>(t: Talk<D>, id: int, n: int, now: int)
    requires TalkOk(t)
    ensures TalkOk(Step(t, GetMore(id, n, now)))
  {
    hide PageEnd;
    if id in t.r.m { PageExtends(t.r.m[id], n); }
  }

  /** A page takes up where the last one ended. */
  lemma PageExtends<D>(c: Cursor<D>, n: int)
    requires c.pos < |c.docs|
    ensures c.pos < PageEnd(c, n) <= |c.docs|
    ensures c.docs[..c.pos] + c.docs[c.pos..PageEnd(c, n)] == c.docs[..PageEnd(c, n)] <= c.docs
    ensures PageEnd(c, n) == |c.docs| ==> c.docs[..PageEnd(c, n)] == c.docs
    ensures c.docs[..c.pos] != c.docs
  {
    assert |c.docs[..c.pos]| == c.pos;
  }

  /** A reply carries id 0 exactly when it completes the result. */
  lemma ZeroMeansExhausted<D>(t: Talk<D>, id: int, n: int, now: int)
    requires TalkOk(t) && PageOf(t.r, id, n, now).Page?
    ensures var after := Step(t, GetMore(id, n, now));
            && PageOf(t.r, id, n, now).docs != []
            && (PageOf(t.r, id, n, now).nextId == 0 <==> after.sent[id] == after.issued[id])
            && (PageOf(t.r, id, n, now).nextId != 0 ==> PageOf(t.r, id, n, now).nextId == id && id in after.r.m)
  {
    var c := t.r.m[id];
    var end := PageEnd(c, n);
    assert c.docs[..c.pos] + c.docs[c.pos..end] == c.docs[..end];
    assert c.docs[..|c.docs|] == c.docs;
  }

  ghost function RunTalk<D>(t: Talk<D>, es: seq<Event<D>>): Talk<D>
    requires TalkOk(t) && forall i | 0 <= i < |es| :: es[i].Open? ==> es[i].docs != []
    ensures TalkOk(RunTalk(t, es))
    ensures forall id <- t.issued :: id in RunTalk(t, es).issued && RunTalk(t, es).issued[id] == t.issued[id]
    decreases |es|
  {
    if es == [] then t else
      StepKeeps(t, es[0]);
      RunTalk(Step(t, es[0]), es[1..])
  }

  /** A query's first batch and everything later sent for its cursor, whatever else
      the registry served in between: a prefix of the result while the cursor lives,
      and once it is gone the whole result exactly when it was not killed, and did not
      time out, while it still had something to send. */
  lemma {:induction false} PagingConserves<D>(t: Talk<D>, docs: seq<D>, batch: seq<D>, rest: seq<D>, now: int,
      es: seq<Event<D>>)
    requires TalkOk(t) && batch + rest == docs && rest != []
    requires forall i | 0 <= i < |es| :: es[i].Open? ==> es[i].docs != []
    ensures var id := t.r.next;
            TalkOk(Step(t, Open(rest, now))) &&
            var end := RunTalk(Step(t, Open(rest, now)), es);
            && id in end.sent && id !in t.issued
            && (id in end.r.m ==> batch + end.sent[id] == docs[..|batch| + end.r.m[id].pos])
            && batch + end.sent[id] <= docs
            && (id !in end.r.m ==> (batch + end.sent[id] == docs <==> id !in end.lost))
  {
    StepKeeps(t, Open(rest, now));
    hide RunTalk;
    SentSoFar(RunTalk(Step(t, Open(rest, now)), es), docs, batch, rest, t.r.next);
  }

  lemma SentSoFar<D>(t: Talk<D>, docs: seq<D>, batch: seq<D>, rest: seq<D>, id: int)
    requires TalkOk(t) && batch + rest == docs && id in t.issued && t.issued[id] == rest
    ensures id in t.sent
    ensures id in t.r.m ==> batch + t.sent[id] == docs[..|batch| + t.r.m[id].pos]
    ensures batch + t.sent[id] <= docs
    ensures id !in t.r.m ==> (batch + t.sent[id] == docs <==> id !in t.lost)
  {
    assert batch + t.sent[id] == docs[..|batch + t.sent[id]|];
    if id !in t.r.m && batch + t.sent[id] == docs {
      assert t.sent[id] == (batch + t.sent[id])[|batch|..] == docs[|batch|..] == rest;
    }
    if id in t.r.m {
      var pos := t.r.m[id].pos;
      assert batch + rest[..pos] == (batch + rest)[..|batch| + pos];
    }
  }

  /** The pages of one cursor, asked for with any batch sizes in time: joined in
      order they are the whole remaining result, and the last one says so. */
  function Drain<D>(c: Cursor<D>, ns: seq<int>): (pages: seq<D>)
    requires c.pos <= |c.docs|
    decreases |ns|
  {
    if ns == [] || c.pos == |c.docs| then [] else
      c.docs[c.pos..PageEnd(c, ns[0])] + Drain(c.(pos := PageEnd(c, ns[0])), ns[1..])
  }

  lemma {:induction false} DrainAll<D>(c: Cursor<D>, ns: seq<int>)
    requires c.pos <= |c.docs| && |ns| >= |c.docs| - c.pos
    ensures Drain(c, ns) == c.docs[c.pos..]
    decreases |ns|
  {
    if c.pos < |c.docs| {
      var end := PageEnd(c, ns[0]);
      DrainAll(c.(pos := end), ns[1..]);
      assert c.docs[c.pos..end] + c.docs[end..] == c.docs[c.pos..];
    }
  }
}
