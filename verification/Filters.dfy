/** What a query filter means for one document: the reference the planner is held to. */
module Filters {
  import opened ByteCodec
  import opened Values
  import opened Paths

  const AND: Bytes := [36, 97, 110, 100]
  const OR: Bytes := [36, 111, 114]
  const NOT: Bytes := [36, 110, 111, 116]
  const NOR: Bytes := [36, 110, 111, 114]
  const EQ: Bytes := [36, 101, 113]
  const NE: Bytes := [36, 110, 101]
  const GT: Bytes := [36, 103, 116]
  const GTE: Bytes := [36, 103, 116, 101]
  const LT: Bytes := [36, 108, 116]
  const LTE: Bytes := [36, 108, 116, 101]
  const IN: Bytes := [36, 105, 110]
  const NIN: Bytes := [36, 110, 105, 110]
  const EXISTS: Bytes := [36, 101, 120, 105, 115, 116, 115]
  const DOLLAR: Byte := 36

  predicate IsLogical(field: Bytes) { field in {AND, OR, NOT, NOR} }

  predicate IsComparison(op: Bytes) { op in {GT, GTE, LT, LTE} }

  /** An object with any key that starts with a dollar is a set of operators. */
  predicate HasOps(d: Doc) { exists k <- d :: k != [] && k[0] == DOLLAR }

  predicate IsOps(cond: Value) { cond.Obj? && HasOps(cond.fields) }

  predicate Scalar(v: Value) { !v.Arr? && !v.Obj? }

  // ---------------------------------------------------------------- comparisons

  function CompareValues(a: Value, b: Value): int
  {
    if a.Num? && b.Num? then if a.n < b.n then -1 else if a.n > b.n then 1 else 0
    else if a.Str? && b.Str? then if Less(a.s, b.s) then -1 else if Less(b.s, a.s) then 1 else 0
    else if a.Null? then if b.Null? then 0 else -1
    else if b.Null? then 1 else 0
  }

  predicate ComparableTypes(a: Value, b: Value) { (a.Num? && b.Num?) || (a.Str? && b.Str?) }

  predicate CompareOp(op: Bytes, v: Value, arg: Value)
  {
    && ComparableTypes(v, arg)
    && var c := CompareValues(v, arg);
       if op == GT then c > 0 else if op == GTE then c >= 0 else if op == LT then c < 0 else op == LTE && c <= 0
  }

  // ---------------------------------------------------------------- well-formed filters

  /** Filters no document makes fail: known operators, arguments of the right shape,
      and only scalars compared for equality. */
  predicate WellFormed(filter: Doc)
    decreases Obj(filter), 0
  {
    forall f <- filter :: WellFormedField(f, filter[f])
  }

  predicate WellFormedField(f: Bytes, cond: Value)
    decreases cond, 2
  {
    if IsLogical(f) then WellFormedLogical(f, cond)
    else if IsOps(cond) then WellFormedOps(cond.fields)
    else Scalar(cond)
  }

  predicate WellFormedLogical(op: Bytes, cond: Value)
    decreases cond, 1
  {
    if op == NOT then cond.Obj? && WellFormed(cond.fields)
    else cond.Arr? && forall i | 0 <= i < |cond.items| :: cond.items[i].Obj? && WellFormed(cond.items[i].fields)
  }

  predicate WellFormedOps(ops: Doc)
    decreases Obj(ops), 0
  {
    forall op <- ops :: WellFormedOp(op, ops[op])
  }

  predicate WellFormedOp(op: Bytes, arg: Value)
    decreases arg, 2
  {
    if op == EQ || op == NE then Scalar(arg)
    else if IsComparison(op) then true
    else if op == IN || op == NIN then arg.Arr? && forall i | 0 <= i < |arg.items| :: Scalar(arg.items[i])
    else if op == EXISTS then arg.Bool?
    else op == NOT && arg.Obj? && WellFormedOps(arg.fields)
  }

  // ---------------------------------------------------------------- meaning

  predicate Matches(doc: Doc, filter: Doc)
    decreases Obj(filter), 0
  {
    forall f <- filter :: FieldMatches(doc, f, filter[f])
  }

  predicate FieldMatches(doc: Doc, f: Bytes, cond: Value)
    decreases cond, 2
  {
    if IsLogical(f) then LogicalMatches(doc, f, cond)
    else
      match LookupMulti(doc, f)
      case None => if IsOps(cond) then OpsHold(None, cond.fields) else cond.Null?
      case Some(vals) =>
        if IsOps(cond) then exists i | 0 <= i < |vals| :: OpsHold(Some(vals[i]), cond.fields)
        else exists i | 0 <= i < |vals| :: vals[i] == cond
  }

  predicate LogicalMatches(doc: Doc, op: Bytes, cond: Value)
    decreases cond, 1
  {
    if op == NOT then cond.Obj? && !Matches(doc, cond.fields)
    else if !cond.Arr? then false
    else if op == AND then forall i | 0 <= i < |cond.items| :: SubMatches(doc, cond.items[i])
    else if op == OR then exists i | 0 <= i < |cond.items| :: SubMatches(doc, cond.items[i])
    else forall i | 0 <= i < |cond.items| :: !SubMatches(doc, cond.items[i])
  }

  predicate SubMatches(doc: Doc, sub: Value)
    decreases sub, 2
  {
    sub.Obj? && Matches(doc, sub.fields)
  }

  /** All operators hold of a value, or of its absence. */
  predicate OpsHold(val: Option<Value>, ops: Doc)
    decreases Obj(ops), 0
  {
    forall op <- ops :: OpHolds(op, val, ops[op])
  }

  predicate OpHolds(op: Bytes, val: Option<Value>, arg: Value)
    decreases arg, 2
  {
    if op == EQ then (if val.None? then arg.Null? else val.value == arg)
    else if op == NE then (if val.None? then !arg.Null? else val.value != arg)
    else if IsComparison(op) then val.Some? && CompareOp(op, val.value, arg)
    else if op == IN then arg.Arr? && val.Some? && val.value in arg.items
    else if op == NIN then arg.Arr? && (val.None? || val.value !in arg.items)
    else if op == EXISTS then arg.Bool? && val.Some? == arg.b
    else op == NOT && arg.Obj? && !OpsHold(val, arg.fields)
  }

  // ---------------------------------------------------------------- the evaluator

  /** None stands for an error. Map entries are visited in no particular order. */
  method Match(doc: Doc, filter: Doc) returns (r: Option<bool>)
    ensures WellFormed(filter) ==> r == Some(Matches(doc, filter))
    decreases Obj(filter), 0
  {
    var todo := filter.Keys;
    while todo != {}
      invariant todo <= filter.Keys
      invariant WellFormed(filter) ==> forall f <- filter :: f !in todo ==> FieldMatches(doc, f, filter[f])
      decreases todo
    {
      var f :| f in todo;
      todo := todo - {f};
      var ok := MatchField(doc, f, filter[f]);
      if ok != Some(true) { return ok; }
    }
    return Some(true);
  }

  method MatchField(doc: Doc, f: Bytes, cond: Value) returns (r: Option<bool>)
    ensures WellFormedField(f, cond) ==> r == Some(FieldMatches(doc, f, cond))
    decreases cond, 2
  {
    hide OpsHold, WellFormedOps;
    if IsLogical(f) {
      r := MatchLogical(doc, f, cond);
      return;
    }
    var vals := FindValues(doc, f);
    if IsOps(cond) {
      r := MatchOpsMulti(vals, cond.fields);
      return;
    }
    if vals == None { return Some(cond == Null); }
    for i := 0 to |vals.value|
      invariant forall j | 0 <= j < i :: vals.value[j] != cond
    {
      if vals.value[i] == cond { return Some(true); }
    }
    return Some(false);
  }

  method MatchOpsMulti(vals: Option<seq<Value>>, ops: Doc) returns (r: Option<bool>)
    ensures WellFormedOps(ops) ==>
              r == Some(if vals.None? || vals.value == [] then OpsHold(None, ops)
                        else exists i | 0 <= i < |vals.value| :: OpsHold(Some(vals.value[i]), ops))
    decreases Obj(ops), 2
  {
    hide OpsHold, WellFormedOps;
    if vals == None || vals.value == [] {
      r := MatchOps(None, ops);
      return;
    }
    for i := 0 to |vals.value|
      invariant WellFormedOps(ops) ==> forall j | 0 <= j < i :: !OpsHold(Some(vals.value[j]), ops)
    {
      var ok := MatchOps(Some(vals.value[i]), ops);
      if ok != Some(false) { return ok; }
    }
    return Some(false);
  }

  method MatchLogical(doc: Doc, op: Bytes, cond: Value) returns (r: Option<bool>)
    requires IsLogical(op)
    ensures WellFormedLogical(op, cond) ==> r == Some(LogicalMatches(doc, op, cond))
    ensures op == NOT && !cond.Obj? ==> r == None
    ensures op != NOT && (!cond.Arr? || exists i | 0 <= i < |cond.items| :: !cond.items[i].Obj?) ==> r == None
    decreases cond, 1
  {
    hide Matches, WellFormed;
    if op == NOT {
      if !cond.Obj? { return None; }
      var ok := Match(doc, cond.fields);
      return if ok == None then None else Some(!ok.value);
    }
    if !cond.Arr? || exists i | 0 <= i < |cond.items| :: !cond.items[i].Obj? { return None; }
    for i := 0 to |cond.items|
      invariant WellFormedLogical(op, cond) ==>
        forall j | 0 <= j < i :: SubMatches(doc, cond.items[j]) == (op == AND)
    {
      var ok := Match(doc, cond.items[i].fields);
      if ok == None { return None; }
      if ok == Some(op != AND) { return Some(op == OR); }
    }
    return Some(op != OR);
  }

  method MatchOps(val: Option<Value>, ops: Doc) returns (r: Option<bool>)
    ensures WellFormedOps(ops) ==> r == Some(OpsHold(val, ops))
    decreases Obj(ops), 0
  {
    var todo := ops.Keys;
    while todo != {}
      invariant todo <= ops.Keys
      invariant WellFormedOps(ops) ==> forall op <- ops :: op !in todo ==> OpHolds(op, val, ops[op])
      decreases todo
    {
      var op :| op in todo;
      todo := todo - {op};
      var ok := MatchOneOp(op, val, ops[op]);
      if ok != Some(true) { return ok; }
    }
    return Some(true);
  }

  method MatchOneOp(op: Bytes, val: Option<Value>, arg: Value) returns (r: Option<bool>)
    ensures WellFormedOp(op, arg) ==> r == Some(OpHolds(op, val, arg))
    // unknown operators and arguments of the wrong shape are errors
    ensures op !in {EQ, NE, GT, GTE, LT, LTE, IN, NIN, EXISTS, NOT, Ascii("$regex"), Ascii("$options")} ==> r == None
    ensures (op == IN || op == NIN) && !arg.Arr? ==> r == None
    ensures op == EXISTS && !arg.Bool? ==> r == None
    ensures op == NOT && !arg.Obj? ==> r == None
    decreases arg, 2
  {
    hide OpsHold, WellFormedOps, CompareOp;
    if op == EQ {
      r := Some(if val.None? then arg.Null? else val.value == arg);
    } else if op == NE {
      r := Some(if val.None? then !arg.Null? else val.value != arg);
    } else if IsComparison(op) {
      r := Some(val.Some? && CompareOp(op, val.value, arg));
    } else if op == IN || op == NIN {
      if !arg.Arr? { return None; }
      if val.None? { return Some(op == NIN); }
      for i := 0 to |arg.items|
        invariant val.value !in arg.items[..i]
      {
        assert arg.items[..i + 1] == arg.items[..i] + [arg.items[i]];
        if val.value == arg.items[i] { return Some(op == IN); }
      }
      assert arg.items[..|arg.items|] == arg.items;
      r := Some(op == NIN);
    } else if op == EXISTS {
      r := if arg.Bool? then Some(val.Some? == arg.b) else None;
    } else if op == NOT {
      if !arg.Obj? { return None; }
      var ok := MatchOps(val, arg.fields);
      r := if ok == None then None else Some(!ok.value);
    } else {
      r := None;
    }
  }
}
