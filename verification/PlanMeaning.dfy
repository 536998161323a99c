/** How the planner reads a field condition, and when an index seek for it selects the
    same documents as evaluating it. */
module PlanMeaning {
  import opened ByteCodec
  import opened Values
  import opened Paths
  import opened Filters
  import opened IndexKeys
  import opened IndexRows
  import opened IndexSpec

  // ---------------------------------------------------------------- reading a condition

  /** A literal, one $eq or one $in: the values that satisfy the condition. */
  function EqualityValues(cond: Value): Option<seq<Value>>
  {
    if !IsOps(cond) then Some([cond])
    else if EQ in cond.fields && |cond.fields| == 1 then Some([cond.fields[EQ]])
    else if IN in cond.fields && |cond.fields| == 1 && cond.fields[IN].Arr? then Some(cond.fields[IN].items)
    else None
  }

  function Arg(ops: Doc, strict: Bytes, loose: Bytes): Value
  {
    if strict in ops then ops[strict] else if loose in ops then ops[loose] else Null
  }

  /** Only comparisons, at most one from each side. */
  function RangeValues(tx: Texts, cond: Value): Option<RangeBound>
  {
    if !IsOps(cond) || (exists op <- cond.fields :: !IsComparison(op)) then None
    else
      var ops := cond.fields;
      if (GT in ops && GTE in ops) || (LT in ops && LTE in ops) then None
      else Some(RangeBound(ToKeyVal(tx, Arg(ops, GT, GTE)), ToKeyVal(tx, Arg(ops, LT, LTE)),
                           GT in ops || GTE in ops, LT in ops || LTE in ops, GTE in ops, LTE in ops))
  }

  datatype Plan = Unplanned | Equal(vals: seq<Value>) | Range(rb: RangeBound)

  function Classify(tx: Texts, f: Bytes, cond: Value): Plan
  {
    if IsLogical(f) then Unplanned
    else if EqualityValues(cond).Some? then Equal(EqualityValues(cond).value)
    else if RangeValues(tx, cond).Some? then Range(RangeValues(tx, cond).value)
    else Unplanned
  }

  // ---------------------------------------------------------------- one document, one field

  /** The field holds one scalar, null, or nothing. */
  predicate OneScalar(doc: Doc, f: Bytes)
  {
    match LookupMulti(doc, f)
    case None => true
    case Some(vals) => |vals| == 1 && Scalar(vals[0])
  }

  /** What the index stores for the field. */
  function FieldVal(tx: Texts, doc: Doc, f: Bytes): KeyVal
  {
    match Lookup(doc, f)
    case None => Missing
    case Some(v) => ToKeyVal(tx, v)
  }

  predicate HasVal(tx: Texts, doc: Doc, f: Bytes, vals: seq<Value>)
  {
    exists i | 0 <= i < |vals| :: ToKeyVal(tx, vals[i]) == FieldVal(tx, doc, f)
  }

  /** The one disagreement: $in finds null in its list, the field is missing. The index
      stores the missing field as null; the evaluator never lets $in match it. */
  predicate AsksNullOfMissing(doc: Doc, f: Bytes, cond: Value)
  {
    && IsOps(cond) && IN in cond.fields && cond.fields[IN].Arr?
    && Null in cond.fields[IN].items && LookupMulti(doc, f) == None
  }

  lemma ScalarsKeepApart(tx: Texts, v: Value, w: Value)
    requires Scalar(v) && Scalar(w)
    ensures ToKeyVal(tx, v) == ToKeyVal(tx, w) <==> v == w
    ensures ToKeyVal(tx, v) == Missing <==> v == Null
  {
  }

  lemma ScalarInList(tx: Texts, v: Value, items: seq<Value>)
    requires Scalar(v) && forall i | 0 <= i < |items| :: Scalar(items[i])
    ensures v in items <==> exists i | 0 <= i < |items| :: ToKeyVal(tx, items[i]) == ToKeyVal(tx, v)
  {
    hide ToKeyVal, Scalar;
    forall i | 0 <= i < |items|
      ensures items[i] == v <==> ToKeyVal(tx, items[i]) == ToKeyVal(tx, v)
    {
      ScalarsKeepApart(tx, items[i], v);
    }
  }

  lemma OneOperator(val: Option<Value>, ops: Doc, op: Bytes)
    requires |ops| == 1 && op in ops
    ensures OpsHold(val, ops) == OpHolds(op, val, ops[op])
    ensures WellFormedOps(ops) == WellFormedOp(op, ops[op])
  {
    assert ops.Keys == {op} by {
      assert |ops.Keys - {op}| == 0;
    }
  }

  /** Seeking the values agrees with evaluating the condition exactly when the condition
      does not ask $in for null where the field is missing. */
  lemma EqualMeans(tx: Texts, doc: Doc, f: Bytes, cond: Value, vals: seq<Value>)
    requires !IsLogical(f) && OneScalar(doc, f) && WellFormedField(f, cond)
    requires EqualityValues(cond) == Some(vals)
    ensures (FieldMatches(doc, f, cond) <==> HasVal(tx, doc, f, vals)) <==> !AsksNullOfMissing(doc, f, cond)
  {
    hide LookupMulti, OpsHold, WellFormedOps, OpHolds, WellFormedOp, ToKeyVal;
    var found := LookupMulti(doc, f);
    if found.Some? { assert FieldVal(tx, doc, f) == ToKeyVal(tx, found.value[0]); }
    if !IsOps(cond) {
      LiteralMeans(tx, found, cond, FieldVal(tx, doc, f));
      assert vals[0] == cond;
      assert found.Some? ==> (FieldMatches(doc, f, cond) <==> found.value[0] == cond);
    } else if EQ in cond.fields && |cond.fields| == 1 {
      EqMeans(tx, doc, f, cond);
    } else {
      InMeans(tx, doc, f, cond);
    }
  }

  /** The disagreement on one input: $in over a list of just null, and an empty document. */
  lemma NullInListDisagrees(tx: Texts)
    ensures var f: Bytes := [97];
            var cond := Obj(map[IN := Arr([Null])]);
            WellFormedField(f, cond) && !FieldMatches(map[], f, cond) && HasVal(tx, map[], f, [Null])
  {
    var f: Bytes := [97];
    var ops: Doc := map[IN := Arr([Null])];
    assert IN in ops && IN[0] == DOLLAR;
    assert DOT !in f;
    OneOperator(None, ops, IN);
    assert [Null][0] == Null;
  }

  /** Why one scalar is asked of an indexed field: an array is indexed by its elements
      and compared as a whole. */
  lemma ArrayDisagrees(tx: Texts)
    ensures var f: Bytes := [97];
            var doc: Doc := map[f := Arr([Num(1)])];
            WellFormedField(f, Num(1)) && !FieldMatches(doc, f, Num(1))
            && ToKeyVal(tx, Num(1)) in Components(tx, doc, f)
  {
    var f: Bytes := [97];
    var doc: Doc := map[f := Arr([Num(1)])];
    assert DOT !in f;
    assert LookupMulti(doc, f) == Some([Arr([Num(1)])]);
    assert Components(tx, doc, f)[0] == Number(1);
  }

  /** And a path that fans out is indexed by the first value it reaches, and compared
      with all of them. */
  lemma FanOutDisagrees(tx: Texts)
    ensures var f: Bytes := [97, DOT, 98];
            var doc: Doc := map[[97] := Arr([Obj(map[[98] := Num(1)]), Obj(map[[98] := Num(2)])])];
            WellFormedField(f, Num(2)) && FieldMatches(doc, f, Num(2))
            && Components(tx, doc, f) == [Number(1)] && ToKeyVal(tx, Num(2)) == Number(2)
  {
    var f: Bytes := [97, DOT, 98];
    var doc: Doc := map[[97] := Arr([Obj(map[[98] := Num(1)]), Obj(map[[98] := Num(2)])])];
    SplitTwo();
    FanOutLeaves();
    hide Split, Leaves;
    assert LookupMulti(doc, f) == Some([Num(1), Num(2)]);
    assert [Num(1), Num(2)][1] == Num(2);
  }

  lemma FanOutLeaves()
    ensures Leaves(Obj(map[[97] := Arr([Obj(map[[98] := Num(1)]), Obj(map[[98] := Num(2)])])]), [[97], [98]])
            == [Num(1), Num(2)]
  {
    var arr := Arr([Obj(map[[98] := Num(1)]), Obj(map[[98] := Num(2)])]);
    var parts: seq<Bytes> := [[97], [98]];
    assert parts[1..] == [[98]] && parts[1..][1..] == [];
    assert Leaves(arr.items[0], parts[1..]) == [Num(1)] && Leaves(arr.items[1], parts[1..]) == [Num(2)];
    assert LeavesOfItems(arr, parts[1..], 1) == [Num(1)];
    assert LeavesOfItems(arr, parts[1..], 2) == [Num(1), Num(2)];
  }

  lemma SplitTwo()
    ensures Split([97, DOT, 98]) == [[97], [98]]
  {
    var f: Bytes := [97, DOT, 98];
    assert f[1..] == [DOT, 98] && f[1..][1..] == [98] && [98][1..] == [];
    assert Split([]) == [[]];
    assert Split([98]) == [[98]] by { assert [98] + [] == [98]; }
    assert Split(f[1..]) == [[]] + [[98]];
    assert [97] + [] == [97];
  }

  lemma LiteralMeans(tx: Texts, found: Option<seq<Value>>, cond: Value, v: KeyVal)
    requires Scalar(cond) && (found.Some? ==> |found.value| == 1 && Scalar(found.value[0]))
    requires v == if found.None? then Missing else ToKeyVal(tx, found.value[0])
    ensures ToKeyVal(tx, cond) == v <==> if found.None? then cond.Null? else found.value[0] == cond
  {
    ScalarsKeepApart(tx, cond, if found.None? then Null else found.value[0]);
  }

  lemma EqMeans(tx: Texts, doc: Doc, f: Bytes, cond: Value)
    requires !IsLogical(f) && OneScalar(doc, f) && WellFormedField(f, cond)
    requires IsOps(cond) && EQ in cond.fields && |cond.fields| == 1
    ensures FieldMatches(doc, f, cond) <==> HasVal(tx, doc, f, [cond.fields[EQ]])
    ensures IN !in cond.fields
  {
    hide LookupMulti, OpsHold, WellFormedOps, ToKeyVal;
    var found := LookupMulti(doc, f);
    var arg := cond.fields[EQ];
    var val := if found.None? then None else Some(found.value[0]);
    OneOperator(val, cond.fields, EQ);
    LiteralMeans(tx, found, arg, FieldVal(tx, doc, f));
    assert FieldMatches(doc, f, cond) == OpsHold(val, cond.fields);
    assert [arg][0] == arg;
    OnlyKey(cond.fields, EQ, IN);
  }

  lemma OnlyKey(ops: Doc, op: Bytes, other: Bytes)
    requires |ops| == 1 && op in ops && other != op
    ensures other !in ops
  {
    assert |ops.Keys - {op}| == 0;
    assert other in ops ==> other in ops.Keys - {op};
  }

  lemma InMeans(tx: Texts, doc: Doc, f: Bytes, cond: Value)
    requires !IsLogical(f) && OneScalar(doc, f) && WellFormedField(f, cond)
    requires IsOps(cond) && IN in cond.fields && |cond.fields| == 1 && cond.fields[IN].Arr?
    ensures (FieldMatches(doc, f, cond) <==> HasVal(tx, doc, f, cond.fields[IN].items))
            <==> !AsksNullOfMissing(doc, f, cond)
  {
    hide LookupMulti, OpsHold, WellFormedOps, ToKeyVal;
    var found := LookupMulti(doc, f);
    var items := cond.fields[IN].items;
    var val := if found.None? then None else Some(found.value[0]);
    OneOperator(val, cond.fields, IN);
    assert FieldMatches(doc, f, cond) == OpsHold(val, cond.fields);
    assert ToKeyVal(tx, Null) == Missing by { ScalarsKeepApart(tx, Null, Null); }
    ScalarInList(tx, if found.None? then Null else found.value[0], items);
  }

  // ---------------------------------------------------------------- ranges

  lemma CompareAgrees(tx: Texts, v: Value, arg: Value)
    requires Scalar(v)
    ensures ComparableTypes(v, arg)
            <==> (ToKeyVal(tx, v).Number? || ToKeyVal(tx, v).Text?) && Rank(ToKeyVal(tx, v)) == Rank(ToKeyVal(tx, arg))
    ensures ComparableTypes(v, arg) ==> Compare(ToKeyVal(tx, v), ToKeyVal(tx, arg)) == CompareValues(v, arg)
  {
    hide Less;
  }

  /** One side of a range: a strict or a loose comparison, or neither. */
  lemma SideMeans(tx: Texts, v: Value, ops: Doc, rb: RangeBound)
    requires Scalar(v) && (v.Num? || v.Str?) && !(GT in ops && GTE in ops) && !(LT in ops && LTE in ops)
    requires rb == RangeBound(ToKeyVal(tx, Arg(ops, GT, GTE)), ToKeyVal(tx, Arg(ops, LT, LTE)),
                              GT in ops || GTE in ops, LT in ops || LTE in ops, GTE in ops, LTE in ops)
    ensures AboveLo(ToKeyVal(tx, v), rb)
            <==> (GT in ops ==> CompareOp(GT, v, ops[GT])) && (GTE in ops ==> CompareOp(GTE, v, ops[GTE]))
    ensures BelowHi(ToKeyVal(tx, v), rb)
            <==> (LT in ops ==> CompareOp(LT, v, ops[LT])) && (LTE in ops ==> CompareOp(LTE, v, ops[LTE]))
  {
    CompareAgrees(tx, v, Arg(ops, GT, GTE));
    CompareAgrees(tx, v, Arg(ops, LT, LTE));
    hide Compare, CompareValues, ComparableTypes, Rank;
  }

  lemma OperatorsSplit(val: Option<Value>, ops: Doc)
    requires forall op <- ops :: IsComparison(op)
    ensures OpsHold(val, ops) <==>
              && (GT in ops ==> OpHolds(GT, val, ops[GT])) && (GTE in ops ==> OpHolds(GTE, val, ops[GTE]))
              && (LT in ops ==> OpHolds(LT, val, ops[LT])) && (LTE in ops ==> OpHolds(LTE, val, ops[LTE]))
  {
    hide OpHolds;
  }

  lemma SomeSide(ops: Doc)
    requires HasOps(ops) && forall op <- ops :: IsComparison(op)
    ensures GT in ops || GTE in ops || LT in ops || LTE in ops
  {
    var op :| op in ops && op != [] && op[0] == DOLLAR;
    assert IsComparison(op);
  }

  /** A document satisfies a range condition exactly when its indexed value is in range. */
  lemma RangeMeans(tx: Texts, doc: Doc, f: Bytes, cond: Value, rb: RangeBound)
    requires !IsLogical(f) && OneScalar(doc, f) && RangeValues(tx, cond) == Some(rb)
    ensures FieldMatches(doc, f, cond) <==> InRange(FieldVal(tx, doc, f), rb)
  {
    hide LookupMulti, OpsHold, AboveLo, BelowHi, CompareOp, HasOps;
    var found := LookupMulti(doc, f);
    var ops := cond.fields;
    var val := if found.None? then None else Some(found.value[0]);
    assert FieldMatches(doc, f, cond) == OpsHold(val, ops);
    OperatorsSplit(val, ops);
    SomeSide(ops);
    if found.Some? {
      var v := found.value[0];
      if v.Num? || v.Str? { SideMeans(tx, v, ops, rb); } else { NotComparable(v, ops); }
    }
  }

  lemma NotComparable(v: Value, ops: Doc)
    requires !v.Num? && !v.Str?
    ensures forall op <- ops :: !CompareOp(op, v, ops[op])
  {
  }

  // ---------------------------------------------------------------- one document, one index

  /** The single row of a document whose indexed fields hold one value each. */
  function RowFor(tx: Texts, doc: Doc, fields: seq<Bytes>): Row
  {
    seq(|fields|, i requires 0 <= i < |fields| => FieldVal(tx, doc, fields[i]))
  }

  lemma {:induction false} OneRow(tx: Texts, doc: Doc, fields: seq<Bytes>)
    requires forall i | 0 <= i < |fields| :: OneScalar(doc, fields[i])
    ensures Rows(tx, doc, fields) == [RowFor(tx, doc, fields)]
  {
    hide OneScalar, FieldVal, Components;
    if fields != [] {
      var n := |fields| - 1;
      OneRow(tx, doc, fields[..n]);
      OneComponent(tx, doc, fields[n]);
      var c := FieldVal(tx, doc, fields[n]);
      var row := RowFor(tx, doc, fields[..n]);
      assert Extend([row], [c]) == [row + [c]] by {
        assert [c][..0] == [];
        assert AppendEach([row], c) == [row + [c]];
      }
      assert RowFor(tx, doc, fields) == row + [c];
    }
  }

  lemma OneComponent(tx: Texts, doc: Doc, f: Bytes)
    requires OneScalar(doc, f)
    ensures Components(tx, doc, f) == [FieldVal(tx, doc, f)]
  {
    hide LookupMulti;
  }

  predicate Leads(tx: Texts, doc: Doc, fields: seq<Bytes>, values: Row)
  {
    |values| <= |fields| && forall i | 0 <= i < |values| :: FieldVal(tx, doc, fields[i]) == values[i]
  }

  lemma StartsWithMeans(tx: Texts, doc: Doc, fields: seq<Bytes>, values: Row)
    requires forall i | 0 <= i < |fields| :: OneScalar(doc, fields[i])
    ensures StartsWith(tx, doc, fields, values) <==> Leads(tx, doc, fields, values)
  {
    hide OneScalar, FieldVal;
    OneRow(tx, doc, fields);
    var row := RowFor(tx, doc, fields);
    assert row in [row];
    assert values <= row <==> |values| <= |row| && forall i | 0 <= i < |values| :: row[i] == values[i];
  }
}
