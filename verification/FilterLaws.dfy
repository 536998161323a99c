/** What queries answer: laws over the sets of documents that filters select, with each
    operator under its own name. */
module FilterLaws {
  import opened ByteCodec
  import opened Values
  import opened Paths
  import opened Filters
  import opened IndexKeys
  import opened IndexRows
  import opened IndexSpec
  import opened PlanMeaning
  import opened Finder

  type Docs = map<Bytes, Doc>

  /** A list of filters as a value. */
  function ListOfFilters(fs: seq<Doc>): Value
  {
    Arr(seq(|fs|, i requires 0 <= i < |fs| => Obj(fs[i])))
  }

  lemma OperatorNames()
    ensures AND == Ascii("$and") && OR == Ascii("$or") && NOT == Ascii("$not") && NOR == Ascii("$nor")
    ensures EQ == Ascii("$eq") && NE == Ascii("$ne") && IN == Ascii("$in") && NIN == Ascii("$nin")
    ensures GT == Ascii("$gt") && GTE == Ascii("$gte") && LT == Ascii("$lt") && LTE == Ascii("$lte")
    ensures EXISTS == Ascii("$exists")
  {
  }

  // ---------------------------------------------------------------- logical operators

  /** A filter of one field. */
  lemma OneField(doc: Doc, f: Bytes, cond: Value)
    ensures Matches(doc, map[f := cond]) <==> FieldMatches(doc, f, cond)
  {
    var filter: Doc := map[f := cond];
    assert f in filter && filter[f] == cond;
  }

  /** The conditions of a filter all have to hold: disjoint filters merged select the
      intersection. */
  lemma MergedFilters(docs: Docs, a: Doc, b: Doc)
    requires a.Keys !! b.Keys
    ensures Matching(docs, a + b) == Matching(docs, a) * Matching(docs, b)
    ensures Matching(docs, map[]) == docs.Keys
  {
    hide FieldMatches;
    forall id | id in docs
      ensures Matches(docs[id], a + b) <==> Matches(docs[id], a) && Matches(docs[id], b)
    {
      BothMatch(docs[id], a, b);
    }
    assert forall id <- docs :: Matches(docs[id], map[]);
  }

  lemma BothMatch(doc: Doc, a: Doc, b: Doc)
    requires a.Keys !! b.Keys
    ensures Matches(doc, a + b) <==> Matches(doc, a) && Matches(doc, b)
  {
    hide FieldMatches;
    if Matches(doc, a + b) {
      forall f | f in a
        ensures FieldMatches(doc, f, a[f])
      {
        assert f in a + b && (a + b)[f] == a[f];
      }
      forall f | f in b
        ensures FieldMatches(doc, f, b[f])
      {
        assert f in a + b && (a + b)[f] == b[f];
      }
    }
  }

  lemma LogicalOf(doc: Doc, fs: seq<Doc>)
    ensures Matches(doc, map[Ascii("$and") := ListOfFilters(fs)]) <==> forall i | 0 <= i < |fs| :: Matches(doc, fs[i])
    ensures Matches(doc, map[Ascii("$or") := ListOfFilters(fs)]) <==> exists i | 0 <= i < |fs| :: Matches(doc, fs[i])
    ensures Matches(doc, map[Ascii("$nor") := ListOfFilters(fs)]) <==> forall i | 0 <= i < |fs| :: !Matches(doc, fs[i])
  {
    OperatorNames();
    hide Matches;
    var list := ListOfFilters(fs);
    forall i | 0 <= i < |fs|
      ensures SubMatches(doc, list.items[i]) <==> Matches(doc, fs[i])
    {
    }
    OneField(doc, AND, list);
    OneField(doc, OR, list);
    OneField(doc, NOR, list);
  }

  /** $and selects the intersection, $or the union and $nor what is left, for lists of any
      length; $not selects the complement. */
  lemma LogicalLaws(docs: Docs, fs: seq<Doc>, f: Doc)
    ensures Matching(docs, map[Ascii("$and") := ListOfFilters(fs)])
            == set id | id in docs && forall i | 0 <= i < |fs| :: id in Matching(docs, fs[i])
    ensures Matching(docs, map[Ascii("$or") := ListOfFilters(fs)])
            == set id | id in docs && exists i | 0 <= i < |fs| :: id in Matching(docs, fs[i])
    ensures Matching(docs, map[Ascii("$nor") := ListOfFilters(fs)])
            == docs.Keys - Matching(docs, map[Ascii("$or") := ListOfFilters(fs)])
    ensures Matching(docs, map[Ascii("$not") := Obj(f)]) == docs.Keys - Matching(docs, f)
  {
    hide Matches;
    forall id | id in docs
      ensures Matches(docs[id], map[Ascii("$not") := Obj(f)]) <==> !Matches(docs[id], f)
    {
      OperatorNames();
      OneField(docs[id], NOT, Obj(f));
    }
    forall id | id in docs
      ensures id in Matching(docs, map[Ascii("$and") := ListOfFilters(fs)])
              <==> forall i | 0 <= i < |fs| :: id in Matching(docs, fs[i])
      ensures id in Matching(docs, map[Ascii("$or") := ListOfFilters(fs)])
              <==> exists i | 0 <= i < |fs| :: id in Matching(docs, fs[i])
      ensures id in Matching(docs, map[Ascii("$nor") := ListOfFilters(fs)])
              <==> forall i | 0 <= i < |fs| :: id !in Matching(docs, fs[i])
    {
      LogicalOf(docs[id], fs);
      assert forall i | 0 <= i < |fs| :: id in Matching(docs, fs[i]) <==> Matches(docs[id], fs[i]);
    }
  }

  /** Two filters, as a reader would write it. */
  lemma OrOfTwo(docs: Docs, f: Doc, g: Doc)
    ensures Matching(docs, map[Ascii("$or") := ListOfFilters([f, g])]) == Matching(docs, f) + Matching(docs, g)
    ensures Matching(docs, map[Ascii("$and") := ListOfFilters([f, g])]) == Matching(docs, f) * Matching(docs, g)
  {
    hide Matches;
    LogicalLaws(docs, [f, g], f);
    assert [f, g][0] == f && [f, g][1] == g;
    forall id | id in docs
      ensures id in Matching(docs, map[Ascii("$or") := ListOfFilters([f, g])])
              <==> id in Matching(docs, f) || id in Matching(docs, g)
      ensures id in Matching(docs, map[Ascii("$and") := ListOfFilters([f, g])])
              <==> id in Matching(docs, f) && id in Matching(docs, g)
    {
    }
  }

  // ---------------------------------------------------------------- operators on one field

  /** A top-level field of a document: no dot, and not the name of a logical operator. */
  predicate Plain(f: Bytes)
  {
    f != [] && '.' as int !in f && f !in {Ascii("$and"), Ascii("$or"), Ascii("$not"), Ascii("$nor")}
  }

  function Held(doc: Doc, f: Bytes): Option<Value> { if f in doc then Some(doc[f]) else None }

  /** The filter of one operator on one field. */
  function Op(f: Bytes, op: string, arg: Value): Doc
    requires forall i | 0 <= i < |op| :: op[i] as int < 128
  {
    map[f := Obj(map[Ascii(op) := arg])]
  }

  lemma PlainField(doc: Doc, f: Bytes, cond: Value)
    requires Plain(f)
    ensures Matches(doc, map[f := cond]) <==>
            if IsOps(cond) then OpsHold(Held(doc, f), cond.fields)
            else match Held(doc, f) case None => cond.Null? case Some(v) => v == cond
  {
    hide OpsHold;
    OperatorNames();
    OneField(doc, f, cond);
    match Held(doc, f)
    case None =>
    case Some(v) => assert [v][0] == v;
  }

  /** One operator on a plain field is that operator on what the field holds. */
  lemma OneOp(doc: Doc, f: Bytes, op: string, arg: Value)
    requires Plain(f) && op != [] && op[0] == '$' && forall i | 0 <= i < |op| :: op[i] as int < 128
    ensures Matches(doc, Op(f, op, arg)) <==> OpHolds(Ascii(op), Held(doc, f), arg)
  {
    hide OpHolds;
    var ops: Doc := map[Ascii(op) := arg];
    assert Ascii(op) in ops && Ascii(op)[0] == DOLLAR;
    PlainField(doc, f, Obj(ops));
  }

  /** $eq asks for the value itself, and null also finds the documents without the field;
      a bare value asks the same. $ne selects the complement. */
  lemma EqualityLaws(docs: Docs, f: Bytes, v: Value)
    requires Plain(f)
    ensures Matching(docs, Op(f, "$eq", v))
            == set id | id in docs && if f in docs[id] then docs[id][f] == v else v == Null
    ensures Matching(docs, Op(f, "$ne", v)) == docs.Keys - Matching(docs, Op(f, "$eq", v))
    ensures !IsOps(v) ==> Matching(docs, map[f := v]) == Matching(docs, Op(f, "$eq", v))
  {
    hide Matches;
    OperatorNames();
    forall id | id in docs
      ensures Matches(docs[id], Op(f, "$eq", v)) <==> if f in docs[id] then docs[id][f] == v else v == Null
      ensures Matches(docs[id], Op(f, "$ne", v)) <==> !Matches(docs[id], Op(f, "$eq", v))
      ensures !IsOps(v) ==> (Matches(docs[id], map[f := v]) <==> Matches(docs[id], Op(f, "$eq", v)))
    {
      OneOp(docs[id], f, "$eq", v);
      OneOp(docs[id], f, "$ne", v);
      PlainField(docs[id], f, v);
    }
  }

  /** $in asks for one of the values, and never finds a document without the field; $nin
      selects the complement. */
  lemma MembershipLaws(docs: Docs, f: Bytes, vs: seq<Value>)
    requires Plain(f)
    ensures Matching(docs, Op(f, "$in", Arr(vs))) == set id | id in docs && f in docs[id] && docs[id][f] in vs
    ensures Matching(docs, Op(f, "$nin", Arr(vs))) == docs.Keys - Matching(docs, Op(f, "$in", Arr(vs)))
  {
    hide Matches;
    forall id | id in docs
      ensures Matches(docs[id], Op(f, "$in", Arr(vs))) <==> f in docs[id] && docs[id][f] in vs
      ensures Matches(docs[id], Op(f, "$nin", Arr(vs))) <==> !(f in docs[id] && docs[id][f] in vs)
    {
      OneOp(docs[id], f, "$in", Arr(vs));
      OneOp(docs[id], f, "$nin", Arr(vs));
      InMeans(Held(docs[id], f), vs);
    }
  }

  lemma InMeans(val: Option<Value>, vs: seq<Value>)
    ensures OpHolds(Ascii("$in"), val, Arr(vs)) <==> val.Some? && val.value in vs
    ensures OpHolds(Ascii("$nin"), val, Arr(vs)) <==> !(val.Some? && val.value in vs)
  {
    OperatorNames();
  }

  /** $exists selects the documents that have the field, or those that do not. */
  lemma ExistenceLaws(docs: Docs, f: Bytes)
    requires Plain(f)
    ensures Matching(docs, Op(f, "$exists", Bool(true))) == set id | id in docs && f in docs[id]
    ensures Matching(docs, Op(f, "$exists", Bool(false))) == set id | id in docs && f !in docs[id]
  {
    hide Matches;
    forall id | id in docs
      ensures Matches(docs[id], Op(f, "$exists", Bool(true))) <==> f in docs[id]
      ensures Matches(docs[id], Op(f, "$exists", Bool(false))) <==> f !in docs[id]
    {
      OneOp(docs[id], f, "$exists", Bool(true));
      OneOp(docs[id], f, "$exists", Bool(false));
      ExistsMeans(Held(docs[id], f));
    }
  }

  lemma ExistsMeans(val: Option<Value>)
    ensures OpHolds(Ascii("$exists"), val, Bool(true)) <==> val.Some?
    ensures OpHolds(Ascii("$exists"), val, Bool(false)) <==> val.None?
  {
    OperatorNames();
  }

  /** a comes before b: two numbers by value, two strings by the byte order. */
  predicate Before(a: Value, b: Value)
  {
    match (a, b)
    case (Num(m), Num(n)) => m < n
    case (Str(s), Str(t)) => Less(s, t)
    case _ => false
  }

  /** The four comparisons hold between numbers and between strings, and nowhere else. */
  lemma ComparisonLaws(docs: Docs, f: Bytes, v: Value)
    requires Plain(f)
    ensures Matching(docs, Op(f, "$gt", v)) == set id | id in docs && f in docs[id] && Before(v, docs[id][f])
    ensures Matching(docs, Op(f, "$lt", v)) == set id | id in docs && f in docs[id] && Before(docs[id][f], v)
    ensures Matching(docs, Op(f, "$gte", v))
            == set id | id in docs && f in docs[id]
                        && (Before(v, docs[id][f]) || (docs[id][f] == v && (v.Num? || v.Str?)))
    ensures Matching(docs, Op(f, "$lte", v))
            == set id | id in docs && f in docs[id]
                        && (Before(docs[id][f], v) || (docs[id][f] == v && (v.Num? || v.Str?)))
  {
    hide Matches;
    OperatorNames();
    forall id | id in docs
      ensures Matches(docs[id], Op(f, "$gt", v)) <==> f in docs[id] && Before(v, docs[id][f])
      ensures Matches(docs[id], Op(f, "$lt", v)) <==> f in docs[id] && Before(docs[id][f], v)
      ensures Matches(docs[id], Op(f, "$gte", v)) <==>
              f in docs[id] && (Before(v, docs[id][f]) || (docs[id][f] == v && (v.Num? || v.Str?)))
      ensures Matches(docs[id], Op(f, "$lte", v)) <==>
              f in docs[id] && (Before(docs[id][f], v) || (docs[id][f] == v && (v.Num? || v.Str?)))
    {
      OneOp(docs[id], f, "$gt", v);
      OneOp(docs[id], f, "$lt", v);
      OneOp(docs[id], f, "$gte", v);
      OneOp(docs[id], f, "$lte", v);
      if f in docs[id] { Compares(docs[id][f], v); }
    }
  }

  /** Values of different types do not compare, except that null comes first. */
  lemma NullFirst(v: Value, w: Value)
    ensures v != Null ==> CompareValues(Null, v) < 0 < CompareValues(v, Null)
    ensures CompareValues(Null, Null) == 0
    ensures v != Null && w != Null && !ComparableTypes(v, w) ==> CompareValues(v, w) == 0
  {
  }

  lemma Compares(a: Value, b: Value)
    ensures CompareOp(GT, a, b) <==> Before(b, a)
    ensures CompareOp(LT, a, b) <==> Before(a, b)
    ensures CompareOp(GTE, a, b) <==> Before(b, a) || (a == b && (b.Num? || b.Str?))
    ensures CompareOp(LTE, a, b) <==> Before(a, b) || (a == b && (b.Num? || b.Str?))
  {
    if a.Str? && b.Str? {
      LessIrreflexive(a.s);
      if a.s != b.s { LessConnected(a.s, b.s); }
      if Less(a.s, b.s) && Less(b.s, a.s) { LessTransitive(a.s, b.s, a.s); }
    }
  }

  /** All operators of one object have to hold of one field, and $not turns its operators
      round. */
  lemma OperatorSets(docs: Docs, f: Bytes, a: Doc, b: Doc)
    requires Plain(f) && a.Keys !! b.Keys && HasOps(a) && HasOps(b)
    ensures Matching(docs, map[f := Obj(a + b)]) == Matching(docs, map[f := Obj(a)]) * Matching(docs, map[f := Obj(b)])
    ensures Matching(docs, Op(f, "$not", Obj(a))) == docs.Keys - Matching(docs, map[f := Obj(a)])
  {
    hide Matches;
    OperatorNames();
    SomeOperator(a, b);
    forall id | id in docs
      ensures Matches(docs[id], map[f := Obj(a + b)])
              <==> Matches(docs[id], map[f := Obj(a)]) && Matches(docs[id], map[f := Obj(b)])
      ensures Matches(docs[id], Op(f, "$not", Obj(a))) <==> !Matches(docs[id], map[f := Obj(a)])
    {
      PlainField(docs[id], f, Obj(a + b));
      PlainField(docs[id], f, Obj(a));
      PlainField(docs[id], f, Obj(b));
      OneOp(docs[id], f, "$not", Obj(a));
      BothHold(Held(docs[id], f), a, b);
    }
  }

  lemma SomeOperator(a: Doc, b: Doc)
    requires HasOps(a) && a.Keys !! b.Keys
    ensures HasOps(a + b)
  {
    var k :| k in a && k != [] && k[0] == DOLLAR;
    assert k in a + b;
  }

  lemma BothHold(val: Option<Value>, a: Doc, b: Doc)
    requires a.Keys !! b.Keys
    ensures OpsHold(val, a + b) <==> OpsHold(val, a) && OpsHold(val, b)
  {
    hide OpHolds;
    if OpsHold(val, a + b) {
      forall op | op in a
        ensures OpHolds(op, val, a[op])
      {
        assert op in a + b && (a + b)[op] == a[op];
      }
      forall op | op in b
        ensures OpHolds(op, val, b[op])
      {
        assert op in a + b && (a + b)[op] == b[op];
      }
    }
  }

  /** A path that fans out matches when one of the values it reaches does, alone in a
      field of its own; one that reaches nothing matches as an absent field does. */
  lemma AnyValue(doc: Doc, path: Bytes, f: Bytes, cond: Value)
    requires Plain(f) && !IsLogical(path)
    ensures Matches(doc, map[path := cond]) <==>
            match LookupMulti(doc, path)
            case None => Matches(map[], map[f := cond])
            case Some(vals) => exists i | 0 <= i < |vals| :: Matches(map[f := vals[i]], map[f := cond])
  {
    hide Matches, OpsHold;
    OneField(doc, path, cond);
    PlainField(map[], f, cond);
    forall v: Value
      ensures Matches(map[f := v], map[f := cond]) <==>
              if IsOps(cond) then OpsHold(Some(v), cond.fields) else v == cond
    {
      PlainField(map[f := v], f, cond);
    }
  }

  // ---------------------------------------------------------------- what an index can answer

  /** The conditions the planner takes to an index: a value, one $eq or one $in; and one
      comparison from either side. */
  lemma PlannedConditions(tx: Texts, f: Bytes, v: Value, vs: seq<Value>)
    requires Plain(f)
    ensures !IsOps(v) ==> Classify(tx, f, v) == Equal([v])
    ensures Classify(tx, f, Obj(map[Ascii("$eq") := v])) == Equal([v])
    ensures Classify(tx, f, Obj(map[Ascii("$in") := Arr(vs)])) == Equal(vs)
    ensures Classify(tx, f, Obj(map[Ascii("$gt") := v])) ==
              Range(RangeBound(ToKeyVal(tx, v), Missing, true, false, false, false))
    ensures Classify(tx, f, Obj(map[Ascii("$gte") := v])) ==
              Range(RangeBound(ToKeyVal(tx, v), Missing, true, false, true, false))
    ensures Classify(tx, f, Obj(map[Ascii("$lt") := v])) ==
              Range(RangeBound(Missing, ToKeyVal(tx, v), false, true, false, false))
    ensures Classify(tx, f, Obj(map[Ascii("$lte") := v])) ==
              Range(RangeBound(Missing, ToKeyVal(tx, v), false, true, false, true))
  {
    OperatorNames();
    Single(EQ, v);
    Single(IN, Arr(vs));
    Single(GT, v);
    Single(GTE, v);
    Single(LT, v);
    Single(LTE, v);
  }

  lemma Single(op: Bytes, arg: Value)
    requires op in {EQ, IN, GT, GTE, LT, LTE}
    ensures var ops: Doc := map[op := arg]; HasOps(ops) && |ops| == 1 && ops.Keys == {op}
  {
    var ops: Doc := map[op := arg];
    assert op in ops && op[0] == DOLLAR;
    assert ops.Keys == {op};
  }
}
