/** Find: load the planned candidates, in parallel chunks when there are many, evaluate
    the filter where the plan is not exact, and put the result in order. */
module Finder {
  import opened ByteCodec
  import opened Values
  import opened Reversal
  import opened SortedLists
  import opened Filters
  import opened IndexKeys
  import opened IndexRows
  import opened KeyMaps
  import opened Csr
  import opened Collections
  import opened PlanMeaning
  import opened Planner
  import opened Seeks

  const PARALLEL_MIN_IDS: nat := 512

  // ---------------------------------------------------------------- loading

  predicate Keeps(docs: Docs, id: Bytes, filter: Doc, rematch: bool)
  {
    id in docs && (rematch ==> Matches(docs[id], filter))
  }

  /** The ids that are there and, if asked, match: in the order given. */
  function Kept(docs: Docs, ids: seq<Bytes>, filter: Doc, rematch: bool): seq<Bytes>
  {
    if ids == [] then []
    else
      var last := ids[|ids| - 1];
      Kept(docs, ids[..|ids| - 1], filter, rematch) + if Keeps(docs, last, filter, rematch) then [last] else []
  }

  lemma {:induction false} KeptConcat(docs: Docs, a: seq<Bytes>, b: seq<Bytes>, filter: Doc, rematch: bool)
    ensures Kept(docs, a + b, filter, rematch) == Kept(docs, a, filter, rematch) + Kept(docs, b, filter, rematch)
    decreases |b|
  {
    hide Keeps;
    if b == [] {
      assert a + b == a;
    } else {
      var n := |b| - 1;
      KeptConcat(docs, a, b[..n], filter, rematch);
      assert (a + b)[..|a + b| - 1] == a + b[..n];
    }
  }

  lemma {:induction false} KeptMembers(docs: Docs, ids: seq<Bytes>, filter: Doc, rematch: bool, id: Bytes)
    ensures id in Kept(docs, ids, filter, rematch) <==> id in ids && Keeps(docs, id, filter, rematch)
  {
    hide Keeps;
    if ids != [] {
      var n := |ids| - 1;
      KeptMembers(docs, ids[..n], filter, rematch, id);
      assert ids == ids[..n] + [ids[n]];
    }
  }

  lemma {:induction false} KeptNoRepeats(docs: Docs, ids: seq<Bytes>, filter: Doc, rematch: bool)
    requires NoRepeats(ids)
    ensures NoRepeats(Kept(docs, ids, filter, rematch))
  {
    hide Keeps;
    if ids != [] {
      var n := |ids| - 1;
      KeptNoRepeats(docs, ids[..n], filter, rematch);
      var front := Kept(docs, ids[..n], filter, rematch);
      forall i | 0 <= i < |front|
        ensures front[i] != ids[n]
      {
        KeptMembers(docs, ids[..n], filter, rematch, front[i]);
        var j :| 0 <= j < n && ids[..n][j] == front[i];
      }
    }
  }

  lemma {:induction false} KeptRising(tx: Texts, docs: Docs, seen: Docs, f: Bytes, ids: seq<Bytes>, filter: Doc,
      rematch: bool)
    requires Rising(tx, docs, f, ids)
    ensures Rising(tx, docs, f, Kept(seen, ids, filter, rematch))
  {
    hide Keeps, FieldVal, Compare;
    if ids != [] {
      var n := |ids| - 1;
      KeptRising(tx, docs, seen, f, ids[..n], filter, rematch);
      var front := Kept(seen, ids[..n], filter, rematch);
      forall i | 0 <= i < |front|
        ensures front[i] in ids[..n]
      {
        KeptMembers(seen, ids[..n], filter, rematch, front[i]);
      }
      KeepsRising(tx, docs, f, ids, n, front);
    }
  }

  /** None stands for an evaluation error; a document that cannot be read is skipped
      without one. */
  method MaterializeSerial(docs: Docs, unread: set<Bytes>, ids: seq<Bytes>, filter: Doc, rematch: bool)
    returns (r: Option<seq<Bytes>>)
    ensures WellFormed(filter) ==> r == Some(Kept(docs - unread, ids, filter, rematch))
  {
    hide Matches, WellFormed;
    var refs: seq<Bytes> := [];
    for i := 0 to |ids|
      invariant WellFormed(filter) ==> refs == Kept(docs - unread, ids[..i], filter, rematch)
    {
      assert ids[..i + 1][..i] == ids[..i] && ids[..i + 1][i] == ids[i];
      if ids[i] !in docs || ids[i] in unread { continue; }
      if rematch {
        var ok := Match(docs[ids[i]], filter);
        if ok == None { return None; }
        if !ok.value { continue; }
      }
      refs := refs + [ids[i]];
    }
    assert ids[..|ids|] == ids;
    return Some(refs);
  }

  // ---------------------------------------------------------------- chunks

  function Least(a: int, b: int): int { if a <= b then a else b }

  lemma ChunkBounds(n: nat, chunk: nat, i: nat)
    requires chunk > 0 && i < (n + chunk - 1) / chunk
    ensures i * chunk < n
  {
    var q := (n + chunk - 1) / chunk;
    assert q * chunk <= n + chunk - 1;
    assert (i + 1) * chunk <= q * chunk;
  }

  lemma LastChunk(n: nat, chunk: nat)
    requires chunk > 0
    ensures (n + chunk - 1) / chunk * chunk >= n
  {
  }

  /** The i-th contiguous piece. */
  function Chunk(ids: seq<Bytes>, chunk: nat, i: nat): seq<Bytes>
    requires i * chunk <= |ids|
  {
    ids[i * chunk..Least(i * chunk + chunk, |ids|)]
  }

  /** What one worker leaves in its slot. */
  ghost predicate SlotDone(docs: Docs, ids: seq<Bytes>, filter: Doc, rematch: bool, chunk: nat, i: nat,
      slot: Option<seq<Bytes>>)
  {
    WellFormed(filter) ==>
      i * chunk <= |ids| && slot == Some(Kept(docs, Chunk(ids, chunk, i), filter, rematch))
  }

  /** Contiguous chunks, each filled by its own worker; the workers finish in any order
      and the slots are joined in input order. */
  method Materialize(docs: Docs, unread: set<Bytes>, ids: seq<Bytes>, filter: Doc, rematch: bool, workers: int)
    returns (r: Option<seq<Bytes>>)
    ensures WellFormed(filter) ==> r == Some(Kept(docs - unread, ids, filter, rematch))
  {
    hide WellFormed, Keeps, SlotDone;
    if |ids| == 0 { return Some([]); }
    if workers <= 1 || |ids| < PARALLEL_MIN_IDS {
      r := MaterializeSerial(docs, unread, ids, filter, rematch);
      return;
    }
    var n := |ids|;
    var chunk := (n + workers - 1) / workers;
    if chunk < PARALLEL_MIN_IDS { chunk := PARALLEL_MIN_IDS; }
    var nchunks := (n + chunk - 1) / chunk;
    var results := RunWorkers(docs, unread, ids, filter, rematch, chunk, nchunks);
    r := JoinSlots(docs - unread, ids, filter, rematch, chunk, nchunks, results);
  }

  method RunWorkers(docs: Docs, unread: set<Bytes>, ids: seq<Bytes>, filter: Doc, rematch: bool, chunk: nat,
      nchunks: nat) returns (results: array<Option<seq<Bytes>>>)
    requires chunk > 0 && nchunks == (|ids| + chunk - 1) / chunk
    ensures results.Length == nchunks
    ensures forall i | 0 <= i < nchunks :: SlotDone(docs - unread, ids, filter, rematch, chunk, i, results[i])
  {
    hide WellFormed, Keeps, SlotDone;
    results := new Option<seq<Bytes>>[nchunks](_ => None);
    var running: set<nat> := {};
    for i := 0 to nchunks
      invariant forall j :: j in running <==> 0 <= j < i
    {
      running := running + {i};
    }
    while running != {}
      invariant forall i <- running :: 0 <= i < nchunks
      invariant forall i | 0 <= i < nchunks && i !in running ::
        SlotDone(docs - unread, ids, filter, rematch, chunk, i, results[i])
      decreases running
    {
      var i :| i in running;
      ChunkBounds(|ids|, chunk, i);
      var lo := i * chunk;
      var hi := Least(lo + chunk, |ids|);
      results[i] := MaterializeSerial(docs, unread, ids[lo..hi], filter, rematch);
      SlotFilled(docs - unread, ids, filter, rematch, chunk, i, results[i]);
      running := running - {i};
    }
  }

  lemma SlotFilled(docs: Docs, ids: seq<Bytes>, filter: Doc, rematch: bool, chunk: nat, i: nat, slot: Option<seq<Bytes>>)
    requires i * chunk <= |ids|
    requires WellFormed(filter) ==> slot == Some(Kept(docs, Chunk(ids, chunk, i), filter, rematch))
    ensures SlotDone(docs, ids, filter, rematch, chunk, i, slot)
  {
    hide WellFormed;
  }

  lemma SlotHolds(docs: Docs, ids: seq<Bytes>, filter: Doc, rematch: bool, chunk: nat, i: nat, slot: Option<seq<Bytes>>)
    requires SlotDone(docs, ids, filter, rematch, chunk, i, slot) && WellFormed(filter) && chunk > 0
    ensures i * chunk <= |ids| && slot.Some?
    ensures Kept(docs, ids[..Least((i + 1) * chunk, |ids|)], filter, rematch)
            == Kept(docs, ids[..i * chunk], filter, rematch) + slot.value
  {
    hide WellFormed, Kept;
    var lo := i * chunk;
    var hi := Least(lo + chunk, |ids|);
    assert (i + 1) * chunk == lo + chunk;
    KeptConcat(docs, ids[..lo], ids[lo..hi], filter, rematch);
    assert ids[..lo] + ids[lo..hi] == ids[..hi];
  }

  method JoinSlots(docs: Docs, ids: seq<Bytes>, filter: Doc, rematch: bool, chunk: nat, nchunks: nat,
      results: array<Option<seq<Bytes>>>)
    returns (r: Option<seq<Bytes>>)
    requires chunk > 0 && nchunks == (|ids| + chunk - 1) / chunk && results.Length == nchunks
    requires forall i | 0 <= i < nchunks :: SlotDone(docs, ids, filter, rematch, chunk, i, results[i])
    ensures WellFormed(filter) ==> r == Some(Kept(docs, ids, filter, rematch))
    // one chunk that fails fails the whole
    ensures r.None? <==> exists i | 0 <= i < nchunks :: results[i].None?
  {
    hide WellFormed, Keeps, SlotDone;
    var out: seq<Bytes> := [];
    var failed := false;
    assert ids[..0] == [];
    for i := 0 to nchunks
      invariant WellFormed(filter) ==> !failed && out == Kept(docs, ids[..Least(i * chunk, |ids|)], filter, rematch)
      invariant failed <==> exists j | 0 <= j < i :: results[j].None?
    {
      ChunkBounds(|ids|, chunk, i);
      if WellFormed(filter) { SlotHolds(docs, ids, filter, rematch, chunk, i, results[i]); }
      if results[i] == None { failed := true; } else { out := out + results[i].value; }
    }
    LastChunk(|ids|, chunk);
    assert ids[..|ids|] == ids;
    return if failed then None else Some(out);
  }

  // ---------------------------------------------------------------- find

  function Matching(docs: Docs, filter: Doc): set<Bytes>
  {
    set id | id in docs && Matches(docs[id], filter)
  }

  /** A set as a list, in no particular order. */
  method ListOf(s: set<Bytes>) returns (r: seq<Bytes>)
    ensures NoRepeats(r) && forall id :: id in r <==> id in s
  {
    r := [];
    var todo := s;
    while todo != {}
      invariant todo <= s && NoRepeats(r) && forall id :: id in r <==> id in s - todo
      decreases todo
    {
      var id :| id in todo;
      assert id !in r;
      r := r + [id];
      todo := todo - {id};
    }
  }

  method SortByID(refs: seq<Bytes>) returns (r: seq<Bytes>)
    requires NoRepeats(refs)
    ensures Ascending(r) && forall id :: id in r <==> id in refs
  {
    hide Less;
    r := [];
    for i := 0 to |refs|
      invariant Ascending(r) && forall id :: id in r <==> id in refs[..i]
    {
      assert refs[..i + 1] == refs[..i] + [refs[i]];
      r := InsertSorted(r, refs[i]);
    }
    assert refs[..|refs|] == refs;
  }

  /** Candidates from the plan when it used an index, every document otherwise. */
  method Gathered(c: Collection, unread: set<Bytes>, filter: Doc, workers: int)
    returns (refs: Option<seq<Bytes>>, p: PlanResult)
    requires Plannable(c, filter)
    modifies c.indexes
    ensures Plannable(c, filter) && refs.Some? && NoRepeats(refs.value)
    ensures forall id :: id in refs.value <==> id in Matching(c.docs - unread, filter)
    ensures p.order.Some? ==> Rising(c.tx, c.docs, p.orderField, refs.value)
    ensures (exists f <- filter :: ServedRange(c, filter, f)) ==>
              && p.orderField in filter && ServedRange(c, filter, p.orderField)
              && (p.order.Some? || refs.value == [])
  {
    hide Plannable, WellFormed, Matches, NoRepeats, Rising, ServedRange, Served;
    p := PlanCandidates(c, filter);
    RangeIsServed(c, filter);
    PlannableIsWellFormed(c, filter);
    var ids: seq<Bytes>;
    var rematch := true;
    if p.cand.Some? {
      rematch := !p.exact;
      if p.order.Some? { ids := p.order.value; } else { ids := ListOf(p.cand.value); }
    } else {
      p := p.(order := None);
      ids := SortedMembers(c.docs.Keys);
      AscendingNoRepeats(ids);
    }
    refs := Materialize(c.docs, unread, ids, filter, rematch, workers);
    KeptNoRepeats(c.docs - unread, ids, filter, rematch);
    if p.order.Some? { KeptRising(c.tx, c.docs, c.docs - unread, p.orderField, ids, filter, rematch); }
    if ids == [] { assert refs.value == []; }
    forall id: Bytes
      ensures id in refs.value <==> id in Matching(c.docs - unread, filter)
    {
      KeptMembers(c.docs - unread, ids, filter, rematch, id);
    }
  }

  /** An answer is complete exactly when no matching document failed to be read; there
      is no error to tell. */
  lemma CompleteExact(docs: Docs, unread: set<Bytes>, filter: Doc)
    ensures Matching(docs - unread, filter) <= Matching(docs, filter)
    ensures Matching(docs - unread, filter) == Matching(docs, filter) <==> Matching(docs, filter) !! unread
  {
    hide Matches;
    forall id | id in Matching(docs, filter)
      ensures id in Matching(docs - unread, filter) <==> id !in unread
    {
    }
  }

  lemma PlannableIsWellFormed(c: Collection, filter: Doc)
    requires Plannable(c, filter)
    ensures WellFormed(filter)
  {
  }

  lemma AscendingNoRepeats(ids: seq<Bytes>)
    requires Ascending(ids)
    ensures NoRepeats(ids)
  {
    hide Less;
    forall i, j | 0 <= i < j < |ids|
      ensures ids[i] != ids[j]
    {
      LessIrreflexive(ids[i]);
    }
  }

  /** Find without a sort: through any set of indexes, the matching documents that can be
      read, in id order, which is what the full scan gives. */
  method Find(c: Collection, unread: set<Bytes>, filter: Doc, workers: int) returns (r: Option<seq<Bytes>>)
    requires Plannable(c, filter)
    modifies c.indexes
    ensures Plannable(c, filter) && r == Some(SortedIds(Matching(c.docs - unread, filter)))
  {
    hide Plannable, Matching, NoRepeats, SortedIds;
    var refs, p := Gathered(c, unread, filter, workers);
    var sorted := SortByID(refs.value);
    SortsSetUnique(sorted, Matching(c.docs - unread, filter));
    return Some(sorted);
  }

  /** Find as it would be with no index at all: no demand on the data. */
  method FullScan(docs: Docs, unread: set<Bytes>, filter: Doc, workers: int) returns (r: Option<seq<Bytes>>)
    requires WellFormed(filter)
    ensures r == Some(SortedIds(Matching(docs - unread, filter)))
  {
    hide WellFormed, Matches, SortedIds;
    var ids := SortedMembers(docs.Keys);
    AscendingNoRepeats(ids);
    var refs := Materialize(docs, unread, ids, filter, true, workers);
    KeptNoRepeats(docs - unread, ids, filter, true);
    var sorted := SortByID(refs.value);
    forall id: Bytes
      ensures id in sorted <==> id in Matching(docs - unread, filter)
    {
      KeptMembers(docs - unread, ids, filter, true, id);
    }
    SortsSetUnique(sorted, Matching(docs - unread, filter));
    return Some(sorted);
  }

  /** Find sorted by the field of a range seek: the index order is kept, or turned
      round, instead of sorting. byIndex tells whether the shortcut applied. */
  method FindByIndexOrder(c: Collection, unread: set<Bytes>, filter: Doc, workers: int, sortField: Bytes,
      descending: bool) returns (r: Option<seq<Bytes>>, byIndex: bool)
    requires Plannable(c, filter)
    modifies c.indexes
    ensures Plannable(c, filter) && r.Some? && NoRepeats(r.value)
    ensures forall id :: id in r.value <==> id in Matching(c.docs - unread, filter)
    ensures byIndex ==> Rising(c.tx, c.docs, sortField, if descending then Reversed(r.value) else r.value)
    // the shortcut is taken when the sort field is the one range an index answers
    ensures (exists f <- filter :: ServedRange(c, filter, f))
            && (forall f <- filter :: ServedRange(c, filter, f) ==> f == sortField)
            ==> byIndex || r.value == []
  {
    hide Plannable, Matching, Rising, ServedRange;
    var refs, p := Gathered(c, unread, filter, workers);
    byIndex := p.order.Some? && p.orderField == sortField;
    if byIndex && descending {
      var turned := Reverse(refs.value);
      ReversedTwice(refs.value);
      ReversedNoRepeats(refs.value);
      return Some(turned), true;
    }
    return refs, byIndex;
  }

  lemma ReversedNoRepeats(s: seq<Bytes>)
    requires NoRepeats(s)
    ensures NoRepeats(Reversed(s)) && forall id :: id in Reversed(s) <==> id in s
  {
    var t := Reversed(s);
    forall id: Bytes
      ensures id in t <==> id in s
    {
      ReversedMembers(s, id);
    }
    assert forall i, j | 0 <= i < j < |t| :: t[i] == s[|s| - 1 - i] && t[j] == s[|s| - 1 - j];
  }
}
