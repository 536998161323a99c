/** The query planner: it turns a filter into index seeks, intersects them and decides
    whether the candidates still have to be evaluated. */
module Planner {
  import opened ByteCodec
  import opened Values
  import opened Filters
  import opened IndexKeys
  import opened IndexRows
  import opened KeyMaps
  import opened IndexSpec
  import opened Collections
  import opened PlanMeaning
  import opened Seeks

  // ---------------------------------------------------------------- the plan

  datatype FieldPlan = FieldPlan(field: Bytes, plan: Plan)

  ghost predicate PlansOk(tx: Texts, filter: Doc, plans: seq<FieldPlan>)
  {
    && (forall i | 0 <= i < |plans| :: plans[i].field in filter
          && plans[i].plan == Classify(tx, plans[i].field, filter[plans[i].field]))
    && (forall f <- filter :: exists i | 0 <= i < |plans| :: plans[i].field == f)
  }

  /** Classify the top-level fields, in no particular order. */
  method BuildPlans(tx: Texts, filter: Doc) returns (plans: seq<FieldPlan>)
    ensures PlansOk(tx, filter, plans)
  {
    hide Classify;
    plans := [];
    var todo := filter.Keys;
    while todo != {}
      invariant todo <= filter.Keys && PlansOk(tx, filter - todo, plans)
      decreases todo
    {
      var f :| f in todo;
      assert (filter - (todo - {f})).Keys == (filter - todo).Keys + {f};
      var next := plans + [FieldPlan(f, Classify(tx, f, filter[f]))];
      assert next[|plans|].field == f;
      forall g | g in filter - todo
        ensures exists i | 0 <= i < |next| :: next[i].field == g
      {
        var i :| 0 <= i < |plans| && plans[i].field == g;
        assert next[i].field == g;
      }
      plans, todo := next, todo - {f};
    }
    assert filter - {} == filter;
  }

  method SingleEqualityFor(tx: Texts, filter: Doc, plans: seq<FieldPlan>, field: Bytes) returns (v: Option<Value>)
    requires PlansOk(tx, filter, plans)
    ensures v.Some? ==> field in filter && Classify(tx, field, filter[field]) == Equal([v.value])
  {
    hide Classify;
    for i := 0 to |plans| {
      if plans[i].field == field && plans[i].plan.Equal? && |plans[i].plan.vals| == 1 {
        assert plans[i].plan.vals == [plans[i].plan.vals[0]];
        return Some(plans[i].plan.vals[0]);
      }
    }
    return None;
  }

  method IntersectIDs(dst: set<Bytes>, src: set<Bytes>) returns (r: set<Bytes>)
    ensures r == dst * src
  {
    r := dst;
    var todo := dst;
    while todo != {}
      invariant todo <= dst && r == (dst - todo) * src + todo
      decreases todo
    {
      var id :| id in todo;
      if id !in src { r := r - {id}; }
      todo := todo - {id};
    }
  }

  lemma EqualityScalars(f: Bytes, cond: Value, vals: seq<Value>)
    requires !IsLogical(f) && WellFormedField(f, cond) && EqualityValues(cond) == Some(vals)
    ensures AllScalars(vals)
  {
    hide WellFormedOps;
    if IsOps(cond) && EQ in cond.fields && |cond.fields| == 1 {
      OneOperator(None, cond.fields, EQ);
    } else if IsOps(cond) {
      OneOperator(None, cond.fields, IN);
    }
  }

  /** An equality plan selects what the evaluator does on documents with scalar fields. */
  lemma EqualServes(tx: Texts, docs: Docs, filter: Doc, f: Bytes, vals: seq<Value>)
    requires f in filter && Classify(tx, f, filter[f]) == Equal(vals)
    requires WellFormed(filter) && NoNullInLists(filter) && forall id <- docs :: OneScalar(docs[id], f)
    ensures AllScalars(vals)
    ensures forall id <- docs :: HasVal(tx, docs[id], f, vals) <==> Serves(docs[id], filter, {f})
  {
    hide FieldMatches, HasVal, OneScalar, WellFormedField, EqualityValues, RangeValues;
    EqualityScalars(f, filter[f], vals);
    forall id | id in docs
      ensures HasVal(tx, docs[id], f, vals) <==> Serves(docs[id], filter, {f})
    {
      EqualMeans(tx, docs[id], f, filter[f], vals);
    }
  }

  lemma RangeServes(tx: Texts, docs: Docs, filter: Doc, f: Bytes, rb: RangeBound)
    requires f in filter && Classify(tx, f, filter[f]) == Range(rb) && forall id <- docs :: OneScalar(docs[id], f)
    ensures forall id <- docs :: InRange(FieldVal(tx, docs[id], f), rb) <==> Serves(docs[id], filter, {f})
  {
    hide FieldMatches, InRange, FieldVal, OneScalar, EqualityValues, RangeValues;
    forall id | id in docs
      ensures InRange(FieldVal(tx, docs[id], f), rb) <==> Serves(docs[id], filter, {f})
    {
      RangeMeans(tx, docs[id], f, filter[f], rb);
    }
  }

  function SetOfFields(fields: seq<Bytes>, k: nat): set<Bytes>
    requires k <= |fields|
  {
    set j | 0 <= j < k :: fields[j]
  }

  /** The leading fields of an index, each with a single equality value. */
  ghost predicate LeadingEqualities(tx: Texts, filter: Doc, fields: seq<Bytes>, vals: seq<Value>)
  {
    && |vals| <= |fields|
    && forall j | 0 <= j < |vals| ::
         fields[j] in filter && Classify(tx, fields[j], filter[fields[j]]) == Equal([vals[j]])
  }

  lemma LeadsServe(tx: Texts, docs: Docs, filter: Doc, fields: seq<Bytes>, vals: seq<Value>)
    requires LeadingEqualities(tx, filter, fields, vals) && HoldScalars(docs, fields)
    requires WellFormed(filter) && NoNullInLists(filter)
    ensures AllScalars(vals) && SetOfFields(fields, |vals|) <= filter.Keys
    ensures forall id <- docs ::
              Leads(tx, docs[id], fields, ToKeyVals(tx, vals)) <==> Serves(docs[id], filter, SetOfFields(fields, |vals|))
  {
    hide WellFormed, NoNullInLists, FieldMatches, HasVal, OneScalar, Classify, FieldVal, ToKeyVal;
    forall j | 0 <= j < |vals|
      ensures Scalar(vals[j])
      ensures forall id <- docs ::
        FieldVal(tx, docs[id], fields[j]) == ToKeyVal(tx, vals[j])
        <==> FieldMatches(docs[id], fields[j], filter[fields[j]])
    {
      EqualServes(tx, docs, filter, fields[j], [vals[j]]);
      assert [vals[j]][0] == vals[j];
      forall id | id in docs
        ensures FieldVal(tx, docs[id], fields[j]) == ToKeyVal(tx, vals[j])
                <==> FieldMatches(docs[id], fields[j], filter[fields[j]])
      {
        OneValue(tx, docs[id], fields[j], vals[j]);
        assert HasVal(tx, docs[id], fields[j], [vals[j]]) <==> Serves(docs[id], filter, {fields[j]});
      }
    }
    var fs := SetOfFields(fields, |vals|);
    forall id | id in docs
      ensures Leads(tx, docs[id], fields, ToKeyVals(tx, vals)) <==> Serves(docs[id], filter, fs)
    {
      if Serves(docs[id], filter, fs) {
        forall j | 0 <= j < |vals|
          ensures FieldVal(tx, docs[id], fields[j]) == ToKeyVals(tx, vals)[j]
        {
          assert fields[j] in fs;
        }
      }
    }
  }

  lemma OneValue(tx: Texts, doc: Doc, f: Bytes, v: Value)
    ensures HasVal(tx, doc, f, [v]) <==> FieldVal(tx, doc, f) == ToKeyVal(tx, v)
  {
    hide FieldVal, ToKeyVal;
    assert [v][0] == v;
  }

  /** Candidates so far: none yet, or exactly the documents that satisfy these fields. */
  ghost predicate PlanOk(docs: Docs, filter: Doc, cand: Option<set<Bytes>>, served: set<Bytes>)
  {
    if cand.None? then served == {} else Selects(docs, filter, cand.value, served)
  }

  method LeadingValues(tx: Texts, filter: Doc, plans: seq<FieldPlan>, fields: seq<Bytes>) returns (vals: seq<Value>)
    requires PlansOk(tx, filter, plans)
    ensures LeadingEqualities(tx, filter, fields, vals)
  {
    hide PlansOk, Classify;
    vals := [];
    while |vals| < |fields|
      invariant LeadingEqualities(tx, filter, fields, vals)
    {
      var v := SingleEqualityFor(tx, filter, plans, fields[|vals|]);
      if v == None { return; }
      vals := vals + [v.value];
    }
  }

  method CompoundSeek(c: Collection, filter: Doc, i: nat, vals: seq<Value>) returns (got: set<Bytes>)
    requires Plannable(c, filter) && i < |c.indexes| && vals != []
    requires LeadingEqualities(c.tx, filter, c.indexes[i].def.fields, vals)
    modifies c.indexes
    ensures Plannable(c, filter)
    ensures Selects(c.docs, filter, got, SetOfFields(c.indexes[i].def.fields, |vals|))
  {
    hide TextsOk, Reflects, WellFormed, NoNullInLists, HoldScalars, Selects, Classify, Leads, Serves;
    var fields := c.indexes[i].def.fields;
    LeadsServe(c.tx, c.docs, filter, fields, vals);
    got := SeekLeading(c, i, vals);
    LeadSelects(c.tx, c.docs, filter, fields, vals, got);
  }

  /** The first seek gives the candidates, every later one intersects them. */
  method NarrowTo(ghost docs: Docs, ghost filter: Doc, cand: Option<set<Bytes>>, served: set<Bytes>,
      got: set<Bytes>, fs: set<Bytes>)
    returns (next: set<Bytes>)
    requires PlanOk(docs, filter, cand, served) && Selects(docs, filter, got, fs)
    ensures PlanOk(docs, filter, Some(next), served + fs)
    ensures next == if cand.None? then got else cand.value * got
  {
    hide Selects;
    if cand == None {
      assert served + fs == fs;
      return got;
    }
    Narrow(docs, filter, cand.value, served, got, fs);
    next := IntersectIDs(cand.value, got);
  }

  /** Step 1: compound indexes whose leading fields all have a single equality value. */
  method CompoundSeeks(c: Collection, filter: Doc, plans: seq<FieldPlan>)
    returns (cand: Option<set<Bytes>>, consumed: set<Bytes>, covered: nat)
    requires Plannable(c, filter) && PlansOk(c.tx, filter, plans)
    modifies c.indexes
    ensures Plannable(c, filter) && PlanOk(c.docs, filter, cand, consumed)
    ensures cand.Some? ==> exists f <- filter :: Served(c, filter, f)
    ensures forall f <- consumed :: f in filter && Classify(c.tx, f, filter[f]).Equal?
  {
    hide Plannable, PlansOk, PlanOk, Selects, LeadingEqualities, SetOfFields, Served, Classify;
    cand, consumed, covered := None, {}, 0;
    NoPlan(c.docs, filter);
    for i := 0 to |c.indexes|
      invariant Plannable(c, filter) && PlanOk(c.docs, filter, cand, consumed)
      invariant cand.Some? ==> exists f <- filter :: Served(c, filter, f)
      invariant forall f <- consumed :: f in filter && Classify(c.tx, f, filter[f]).Equal?
    {
      var fields := c.indexes[i].def.fields;
      if |fields| < 2 { continue; }
      var vals := LeadingValues(c.tx, filter, plans, fields);
      if vals == [] { continue; }
      LeadingLength(c.tx, filter, fields, vals);
      LeadIsServed(c, filter, i, vals);
      var got := CompoundSeek(c, filter, i, vals);
      var fs := SetOfFields(fields, |vals|);
      var next := NarrowTo(c.docs, filter, cand, consumed, got, fs);
      cand, consumed, covered := Some(next), consumed + fs, covered + |vals|;
    }
  }

  /** The condition on this field is one that an index answers, and there is one. */
  predicate Served(c: Collection, filter: Doc, f: Bytes)
    reads c
    requires f in filter
  {
    !Classify(c.tx, f, filter[f]).Unplanned? && LedBy(c, f)
  }

  lemma LeadIsServed(c: Collection, filter: Doc, i: nat, vals: seq<Value>)
    requires i < |c.indexes| && vals != [] && LeadingEqualities(c.tx, filter, c.indexes[i].def.fields, vals)
    ensures c.indexes[i].def.fields != [] && c.indexes[i].def.fields[0] in filter
    ensures Served(c, filter, c.indexes[i].def.fields[0])
    ensures |vals| <= |c.indexes[i].def.fields|
    ensures forall f <- SetOfFields(c.indexes[i].def.fields, |vals|) ::
              f in filter && Classify(c.tx, f, filter[f]).Equal?
  {
    hide Classify;
  }

  lemma NoPlan(docs: Docs, filter: Doc)
    ensures PlanOk(docs, filter, None, {})
  {
  }

  lemma LeadingLength(tx: Texts, filter: Doc, fields: seq<Bytes>, vals: seq<Value>)
    requires LeadingEqualities(tx, filter, fields, vals)
    ensures |vals| <= |fields|
  {
  }

  lemma LeadSelects(tx: Texts, docs: Docs, filter: Doc, fields: seq<Bytes>, vals: seq<Value>, got: set<Bytes>)
    requires |vals| <= |fields| && SetOfFields(fields, |vals|) <= filter.Keys
    requires forall id <- docs ::
               Leads(tx, docs[id], fields, ToKeyVals(tx, vals)) <==> Serves(docs[id], filter, SetOfFields(fields, |vals|))
    requires forall id :: id in got <==> id in docs && Leads(tx, docs[id], fields, ToKeyVals(tx, vals))
    ensures Selects(docs, filter, got, SetOfFields(fields, |vals|))
  {
    hide Leads, Serves;
  }

  /** What the planner hands over: candidates if any seek was made, their order if a
      range seek gave one, and whether they need no further evaluation. */
  datatype PlanResult = PlanResult(cand: Option<set<Bytes>>, order: Option<seq<Bytes>>, orderField: Bytes, exact: bool)

  /** An order, once there is one, lists every remaining candidate, none twice, by the
      value of its field. */
  ghost predicate OrderOk(tx: Texts, docs: Docs, p: PlanResult)
  {
    p.order.Some? ==>
      && p.cand.Some? && NoRepeats(p.order.value) && Rising(tx, docs, p.orderField, p.order.value)
      && forall id <- p.cand.value :: id in p.order.value
  }

  method KeepOrder(ids: seq<Bytes>, cand: set<Bytes>, ghost tx: Texts, ghost docs: Docs, ghost f: Bytes)
    returns (kept: seq<Bytes>)
    requires NoRepeats(ids) && Rising(tx, docs, f, ids)
    ensures NoRepeats(kept) && Rising(tx, docs, f, kept) && forall id :: id in kept <==> id in ids && id in cand
  {
    hide FieldVal, Compare;
    kept := [];
    for i := 0 to |ids|
      invariant NoRepeats(kept) && forall id :: id in kept <==> id in ids[..i] && id in cand
      invariant Rising(tx, docs, f, kept)
    {
      assert ids[..i + 1] == ids[..i] + [ids[i]];
      assert ids[i] !in ids[..i];
      if ids[i] in cand {
        KeepsRising(tx, docs, f, ids, i, kept);
        kept := kept + [ids[i]];
      }
    }
    assert ids[..|ids|] == ids;
  }

  lemma KeepsRising(tx: Texts, docs: Docs, f: Bytes, ids: seq<Bytes>, i: nat, kept: seq<Bytes>)
    requires i < |ids| && Rising(tx, docs, f, ids) && Rising(tx, docs, f, kept)
    requires forall k | 0 <= k < |kept| :: kept[k] in ids[..i]
    ensures Rising(tx, docs, f, kept + [ids[i]])
  {
    hide FieldVal, Compare;
    forall k | 0 <= k < |kept|
      ensures Compare(FieldVal(tx, docs[kept[k]], f), FieldVal(tx, docs[ids[i]], f)) <= 0
    {
      var j :| 0 <= j < i && ids[j] == kept[k];
    }
  }

  lemma LedScalars(c: Collection, filter: Doc, i: nat, f: Bytes)
    requires Plannable(c, filter) && i < |c.indexes| && c.indexes[i].def.fields != [] && c.indexes[i].def.fields[0] == f
    ensures forall id <- c.docs :: OneScalar(c.docs[id], f)
  {
    hide OneScalar, TextsOk, Reflects, WellFormed;
    assert HoldScalars(c.docs, c.indexes[i].def.fields);
  }

  /** Equality on one field through any index that leads with it. */
  method EqualitySeek(c: Collection, filter: Doc, f: Bytes, vals: seq<Value>) returns (got: Option<set<Bytes>>)
    requires Plannable(c, filter) && f in filter && Classify(c.tx, f, filter[f]) == Equal(vals)
    modifies c.indexes
    ensures Plannable(c, filter) && (got.Some? ==> Selects(c.docs, filter, got.value, {f}))
    ensures got.Some? <==> LedBy(c, f)
  {
    hide TextsOk, Reflects, NoNullInLists, HoldScalars, HasVal, Serves, OneScalar, FieldMatches, WellFormedField,
        EqualityValues, RangeValues;
    EqualityScalars(f, filter[f], vals);
    ghost var at: nat;
    got, at := SeekEqualityField(c, f, vals);
    if got.Some? {
      LedScalars(c, filter, at, f);
      EqualServes(c.tx, c.docs, filter, f, vals);
    }
  }

  /** A range on one field through any index that leads with it. */
  method RangeSeek(c: Collection, filter: Doc, f: Bytes, rb: RangeBound) returns (ids: Option<seq<Bytes>>)
    requires Plannable(c, filter) && f in filter && Classify(c.tx, f, filter[f]) == Range(rb)
    modifies c.indexes
    ensures Plannable(c, filter)
    ensures ids.Some? ==> Selects(c.docs, filter, (set id | id in ids.value), {f})
                          && NoRepeats(ids.value) && Rising(c.tx, c.docs, f, ids.value)
    ensures ids.Some? <==> LedBy(c, f)
  {
    hide TextsOk, Reflects, WellFormed, NoNullInLists, HoldScalars, Classify, Serves, OneScalar, InRange,
        FieldVal, Compare;
    var at := FindLeading(c, f, false);
    if at == None { return None; }
    LedScalars(c, filter, at.value, f);
    RangeServes(c.tx, c.docs, filter, f, rb);
    var found := SeekRangeField(c, at.value, rb);
    return Some(found);
  }

  // ---------------------------------------------------------------- step 2

  ghost predicate PlanAt(c: Collection, filter: Doc, p: PlanResult, served: set<Bytes>)
    reads c, c.indexes
  {
    Plannable(c, filter) && PlanOk(c.docs, filter, p.cand, served) && OrderOk(c.tx, c.docs, p)
  }

  /** There is an order, or nothing to order. */
  predicate Ordered(p: PlanResult) { p.order.Some? || p.cand == Some({}) }

  /** One equality plan: narrow the candidates, or give up on exactness. */
  method StepEqual(c: Collection, filter: Doc, f: Bytes, vals: seq<Value>, p: PlanResult, served: set<Bytes>)
    returns (q: PlanResult, now: set<Bytes>, sought: bool)
    requires PlanAt(c, filter, p, served) && f in filter && Classify(c.tx, f, filter[f]) == Equal(vals)
    modifies c.indexes
    ensures PlanAt(c, filter, q, now) && now == (if sought then served + {f} else served)
    ensures q.exact == (p.exact && sought) && q.orderField == p.orderField
    ensures Ordered(p) ==> Ordered(q)
    ensures (sought <==> LedBy(c, f)) && (q.cand.Some? <==> p.cand.Some? || LedBy(c, f))
  {
    hide Plannable, Classify, PlanOk, Selects, Rising, LedBy;
    var got := EqualitySeek(c, filter, f, vals);
    if got == None { return p.(exact := false), served, false; }
    var next := NarrowTo(c.docs, filter, p.cand, served, got.value, {f});
    assert p.cand == Some({}) ==> next == {};
    return p.(cand := Some(next)), served + {f}, true;
  }

  /** One range plan: narrow the candidates and take over their order. */
  method StepRange(c: Collection, filter: Doc, f: Bytes, rb: RangeBound, p: PlanResult, served: set<Bytes>)
    returns (q: PlanResult, now: set<Bytes>)
    requires PlanAt(c, filter, p, served) && f in filter && Classify(c.tx, f, filter[f]) == Range(rb)
    modifies c.indexes
    ensures PlanAt(c, filter, q, now) && served <= now && !q.exact
    ensures if LedBy(c, f) then Ordered(q) && q.orderField == f
            else q.orderField == p.orderField && (Ordered(p) ==> Ordered(q))
    ensures q.cand.Some? <==> p.cand.Some? || LedBy(c, f)
  {
    hide Plannable, Classify, PlanOk, Selects, Rising, NoRepeats, LedBy;
    var ids := RangeSeek(c, filter, f, rb);
    if ids == None { return p.(exact := false), served; }
    var got := set id | id in ids.value;
    var next := NarrowTo(c.docs, filter, p.cand, served, got, {f});
    var order: Option<seq<Bytes>>;
    if p.cand == None {
      order := if ids.value == [] then None else ids;
      assert ids.value == [] ==> next == {};
    } else {
      var kept := KeepOrder(ids.value, p.cand.value, c.tx, c.docs, f);
      order := Some(kept);
    }
    return PlanResult(Some(next), order, f, false), served + {f};
  }

  /** A field left for step 2, with a condition and an index that serve each other. */
  predicate SeeksAlone(c: Collection, p: FieldPlan, consumed: set<Bytes>)
    reads c
  {
    p.field !in consumed && !p.plan.Unplanned? && LedBy(c, p.field)
  }

  predicate SeeksRange(c: Collection, p: FieldPlan, consumed: set<Bytes>)
    reads c
  {
    SeeksAlone(c, p, consumed) && p.plan.Range?
  }

  /** Once a range has been sought, the candidates are ordered by the field of one. */
  ghost predicate RangeOrdered(c: Collection, plans: seq<FieldPlan>, consumed: set<Bytes>, p: PlanResult)
    reads c
  {
    (exists i | 0 <= i < |plans| :: SeeksRange(c, plans[i], consumed)) ==>
      Ordered(p) && exists i | 0 <= i < |plans| :: SeeksRange(c, plans[i], consumed) && plans[i].field == p.orderField
  }

  lemma NothingOrdered(c: Collection, plans: seq<FieldPlan>, consumed: set<Bytes>, p: PlanResult)
    requires plans == []
    ensures RangeOrdered(c, plans, consumed, p)
  {
  }

  lemma StaysOrdered(c: Collection, plans: seq<FieldPlan>, i: nat, consumed: set<Bytes>, p: PlanResult, q: PlanResult)
    requires i < |plans| && RangeOrdered(c, plans[..i], consumed, p)
    requires if SeeksRange(c, plans[i], consumed) then Ordered(q) && q.orderField == plans[i].field
             else q.orderField == p.orderField && (Ordered(p) ==> Ordered(q))
    ensures RangeOrdered(c, plans[..i + 1], consumed, q)
  {
    hide SeeksRange, Ordered;
    var a, b := plans[..i], plans[..i + 1];
    assert b[i] == plans[i] && forall j | 0 <= j < i :: a[j] == b[j];
    if exists j | 0 <= j < |b| :: SeeksRange(c, b[j], consumed) {
      if !SeeksRange(c, plans[i], consumed) {
        var j :| 0 <= j < |b| && SeeksRange(c, b[j], consumed);
        assert SeeksRange(c, a[j], consumed);
        var k :| 0 <= k < |a| && SeeksRange(c, a[k], consumed) && a[k].field == p.orderField;
        assert SeeksRange(c, b[k], consumed);
      }
    }
  }

  /** Step 2: the fields step 1 did not consume, one by one. */
  method FieldSeeks(c: Collection, filter: Doc, plans: seq<FieldPlan>, first: PlanResult, consumed: set<Bytes>)
    returns (p: PlanResult, served: set<Bytes>, more: nat)
    requires PlanAt(c, filter, first, consumed) && PlansOk(c.tx, filter, plans)
    modifies c.indexes
    ensures PlanAt(c, filter, p, served)
    ensures p.exact ==> forall i | 0 <= i < |plans| :: plans[i].field in served
    ensures p.cand.Some? <==>
            first.cand.Some? || exists i | 0 <= i < |plans| :: SeeksAlone(c, plans[i], consumed)
    ensures RangeOrdered(c, plans, consumed, p)
  {
    hide PlanAt, Classify, LedBy, RangeOrdered, Ordered;
    p, served, more := first, consumed, 0;
    NothingOrdered(c, plans[..0], consumed, p);
    for i := 0 to |plans|
      invariant PlanAt(c, filter, p, served) && consumed <= served
      invariant p.exact ==> forall j | 0 <= j < i :: plans[j].field in served
      invariant p.cand.Some? <==> first.cand.Some? || exists j | 0 <= j < i :: SeeksAlone(c, plans[j], consumed)
      invariant RangeOrdered(c, plans[..i], consumed, p)
    {
      ghost var before := p;
      var f := plans[i].field;
      match plans[i].plan
      case Unplanned =>
        p := Inexact(c, filter, p, served);
        StaysOrdered(c, plans, i, consumed, before, p);
      case Equal(vals) =>
        if f in consumed {
          StaysOrdered(c, plans, i, consumed, before, p);
          continue;
        }
        var sought;
        p, served, sought := StepEqual(c, filter, f, vals, p, served);
        StaysOrdered(c, plans, i, consumed, before, p);
        if sought { more := more + 1; }
      case Range(rb) =>
        if f in consumed {
          StaysOrdered(c, plans, i, consumed, before, p);
          continue;
        }
        p, served := StepRange(c, filter, f, rb, p, served);
        StaysOrdered(c, plans, i, consumed, before, p);
    }
    assert plans[..|plans|] == plans;
  }

  method Inexact(c: Collection, ghost filter: Doc, p: PlanResult, ghost served: set<Bytes>) returns (q: PlanResult)
    requires PlanAt(c, filter, p, served)
    ensures PlanAt(c, filter, q, served) && q == p.(exact := false) && (Ordered(p) ==> Ordered(q))
  {
    q := p.(exact := false);
  }

  /** What the caller may rely on: no matching document is missing, an exact plan holds
      nothing else, and an order lists just the candidates. */
  ghost predicate PlanSound(tx: Texts, docs: Docs, filter: Doc, p: PlanResult)
  {
    p.cand.Some? ==>
      && (forall id <- p.cand.value :: id in docs)
      && (forall id :: id in docs && Matches(docs[id], filter) ==> id in p.cand.value)
      && (p.exact ==> forall id <- p.cand.value :: Matches(docs[id], filter))
      && (p.order.Some? ==>
            (NoRepeats(p.order.value) && Rising(tx, docs, p.orderField, p.order.value)
             && forall id :: id in p.order.value <==> id in p.cand.value))
  }

  method PlanCandidates(c: Collection, filter: Doc) returns (p: PlanResult)
    requires Plannable(c, filter)
    modifies c.indexes
    ensures Plannable(c, filter) && PlanSound(c.tx, c.docs, filter, p)
    // an index is used whenever a condition and an index serve each other
    ensures p.cand.Some? <==> exists f <- filter :: Served(c, filter, f)
    ensures p.cand.None? ==> (p.exact <==> filter == map[])
    // and with a range among these conditions the candidates come in the order of one
    ensures (exists f <- filter :: ServedRange(c, filter, f)) ==>
              Ordered(p) && p.orderField in filter && ServedRange(c, filter, p.orderField)
  {
    hide Plannable, PlansOk, PlanOk, PlanSound, OrderOk, Ordered, Classify, Served, ServedRange;
    if |filter| == 0 || |c.indexes| == 0 {
      NoneServed(c, filter);
      p := PlanResult(None, None, [], |filter| == 0);
      NoCandidates(c.tx, c.docs, filter, p);
      return;
    }
    var plans := BuildPlans(c.tx, filter);
    var cand, consumed, covered := CompoundSeeks(c, filter, plans);
    NoOrder(c.tx, c.docs, cand);
    var q, served, more := FieldSeeks(c, filter, plans, PlanResult(cand, None, [], true), consumed);
    UsedIffServed(c, filter, plans, cand, consumed, q.cand);
    OrderedByRange(c, filter, plans, consumed, q);
    RangeIsServed(c, filter);
    if q.cand == None {
      p := PlanResult(None, None, [], false);
      NoCandidates(c.tx, c.docs, filter, p);
      return;
    }
    p := Conclude(c, filter, plans, q, served, covered + more == |filter|);
  }

  lemma NoCandidates(tx: Texts, docs: Docs, filter: Doc, p: PlanResult)
    requires p.cand.None?
    ensures PlanSound(tx, docs, filter, p)
  {
  }

  /** Cut the order down to the final candidates, and see whether every field was
      served. */
  method Conclude(c: Collection, filter: Doc, ghost plans: seq<FieldPlan>, q: PlanResult, ghost served: set<Bytes>,
      all: bool) returns (p: PlanResult)
    requires PlanAt(c, filter, q, served) && PlansOk(c.tx, filter, plans) && q.cand.Some?
    requires q.exact ==> forall i | 0 <= i < |plans| :: plans[i].field in served
    ensures PlanSound(c.tx, c.docs, filter, p) && p.cand == q.cand && p.orderField == q.orderField
    ensures Ordered(q) ==> Ordered(p)
  {
    hide Plannable, PlansOk, PlanOk, Rising, NoRepeats, Matches, Selects, OrderOk, Classify, Serves;
    var order := q.order;
    if order.Some? {
      OrderParts(c.tx, c.docs, q);
      var kept := KeepOrder(order.value, q.cand.value, c.tx, c.docs, q.orderField);
      order := Some(kept);
    }
    p := PlanResult(q.cand, order, q.orderField, q.exact && all);
    if p.exact { PlannedAll(c.tx, filter, plans, served); }
    Concludes(c.docs, filter, q.cand, served);
  }

  predicate ServedRange(c: Collection, filter: Doc, f: Bytes)
    reads c
    requires f in filter
  {
    Served(c, filter, f) && Classify(c.tx, f, filter[f]).Range?
  }

  lemma NoneServed(c: Collection, filter: Doc)
    requires |filter| == 0 || |c.indexes| == 0
    ensures forall f <- filter :: !Served(c, filter, f) && !ServedRange(c, filter, f)
  {
    if |filter| == 0 { assert filter.Keys == {}; }
  }

  lemma RangeIsServed(c: Collection, filter: Doc)
    ensures forall f <- filter :: ServedRange(c, filter, f) ==> Served(c, filter, f)
  {
  }

  lemma OrderedByRange(c: Collection, filter: Doc, plans: seq<FieldPlan>, consumed: set<Bytes>, p: PlanResult)
    requires PlansOk(c.tx, filter, plans) && RangeOrdered(c, plans, consumed, p)
    requires forall f <- consumed :: f in filter && Classify(c.tx, f, filter[f]).Equal?
    ensures (exists f <- filter :: ServedRange(c, filter, f)) ==>
              Ordered(p) && p.orderField in filter && ServedRange(c, filter, p.orderField)
  {
    hide Classify, LedBy, Ordered;
    if f :| f in filter && ServedRange(c, filter, f) {
      var i :| 0 <= i < |plans| && plans[i].field == f;
      assert SeeksRange(c, plans[i], consumed);
    }
  }

  lemma UsedIffServed(c: Collection, filter: Doc, plans: seq<FieldPlan>, cand: Option<set<Bytes>>,
      consumed: set<Bytes>, end: Option<set<Bytes>>)
    requires PlansOk(c.tx, filter, plans) && PlanOk(c.docs, filter, cand, consumed)
    requires cand.Some? ==> exists f <- filter :: Served(c, filter, f)
    requires end.Some? <==> cand.Some? || exists i | 0 <= i < |plans| :: SeeksAlone(c, plans[i], consumed)
    ensures end.Some? <==> exists f <- filter :: Served(c, filter, f)
  {
    hide Classify, LedBy, Selects;
    if end.Some? && cand.None? {
      var i :| 0 <= i < |plans| && SeeksAlone(c, plans[i], consumed);
      assert Served(c, filter, plans[i].field);
    }
    if f :| f in filter && Served(c, filter, f) {
      var i :| 0 <= i < |plans| && plans[i].field == f;
      assert cand.None? ==> SeeksAlone(c, plans[i], consumed);
    }
  }

  lemma NoOrder(tx: Texts, docs: Docs, cand: Option<set<Bytes>>)
    ensures OrderOk(tx, docs, PlanResult(cand, None, [], true))
  {
  }

  lemma OrderParts(tx: Texts, docs: Docs, p: PlanResult)
    requires OrderOk(tx, docs, p) && p.order.Some?
    ensures p.cand.Some? && NoRepeats(p.order.value) && Rising(tx, docs, p.orderField, p.order.value)
    ensures forall id <- p.cand.value :: id in p.order.value
  {
  }

  lemma PlannedAll(tx: Texts, filter: Doc, plans: seq<FieldPlan>, served: set<Bytes>)
    requires PlansOk(tx, filter, plans) && forall i | 0 <= i < |plans| :: plans[i].field in served
    ensures filter.Keys <= served
  {
    hide Classify;
  }

  lemma Concludes(docs: Docs, filter: Doc, cand: Option<set<Bytes>>, served: set<Bytes>)
    requires PlanOk(docs, filter, cand, served) && cand.Some?
    ensures forall id <- cand.value :: id in docs
    ensures forall id :: id in docs && Matches(docs[id], filter) ==> id in cand.value
    ensures filter.Keys <= served ==> forall id <- cand.value :: Matches(docs[id], filter)
  {
    NoneLost(docs, filter, cand.value, served);
    if filter.Keys <= served {
      assert served == filter.Keys;
      AllServed(docs, filter, cand.value);
    }
  }
}
