/** Looking up a dotted path in a document; a path that meets an array fans out over
    its elements. */
module Paths {
  import opened ByteCodec
  import opened Values

  const DOT: Byte := 46

  /** strings.Split at every dot. */
  function Split(path: Bytes): (parts: seq<Bytes>)
    ensures parts != [] && forall i | 0 <= i < |parts| :: DOT !in parts[i]
  {
    if path == [] then [[]]
    else
      var rest := Split(path[1..]);
      if path[0] == DOT then [[]] + rest else [[path[0]] + rest[0]] + rest[1..]
  }

  function JoinParts(parts: seq<Bytes>): Bytes
    requires parts != []
  {
    if |parts| == 1 then parts[0] else parts[0] + [DOT] + JoinParts(parts[1..])
  }

  /** Splitting loses nothing: joining the parts with dots gives the path back. */
  lemma {:induction false} SplitJoins(path: Bytes)
    ensures JoinParts(Split(path)) == path
  {
    if path != [] {
      SplitJoins(path[1..]);
      var rest := Split(path[1..]);
      if path[0] != DOT {
        var parts := Split(path);
        assert parts[0] == [path[0]] + rest[0] && parts[1..] == rest[1..];
        assert JoinParts(parts) == [path[0]] + JoinParts(rest);
      } else {
        assert Split(path)[1..] == rest;
      }
      assert path == [path[0]] + path[1..];
    }
  }

  /** Every leaf the parts reach from node, in order. */
  function Leaves(node: Value, parts: seq<Bytes>): seq<Value>
    decreases |parts|, node, if node.Arr? then |node.items| + 1 else 0
  {
    if parts == [] then [node] else
      match node
      case Obj(fields) => if parts[0] in fields then Leaves(fields[parts[0]], parts[1..]) else []
      case Arr(items) => LeavesOfItems(node, parts, |items|)
      case _ => []
  }

  /** The leaves under the first n elements of an array. */
  function LeavesOfItems(node: Value, parts: seq<Bytes>, n: nat): seq<Value>
    requires node.Arr? && n <= |node.items|
    decreases |parts|, node, n
  {
    if n == 0 then [] else LeavesOfItems(node, parts, n - 1) + Leaves(node.items[n - 1], parts)
  }

  method GatherLeaves(node: Value, parts: seq<Bytes>) returns (out: seq<Value>)
    ensures out == Leaves(node, parts)
    decreases |parts|, node
  {
    if parts == [] { return [node]; }
    match node
    case Obj(fields) =>
      if parts[0] !in fields { return []; }
      out := GatherLeaves(fields[parts[0]], parts[1..]);
    case Arr(items) =>
      out := [];
      for i := 0 to |items|
        invariant out == LeavesOfItems(node, parts, i)
      {
        var more := GatherLeaves(items[i], parts);
        out := out + more;
      }
    case _ => return [];
  }

  /** All values a path reaches; None when it reaches nothing. */
  function LookupMulti(doc: Doc, path: Bytes): (r: Option<seq<Value>>)
    ensures r.Some? ==> r.value != []
  {
    if path == [] then None
    else if DOT !in path then if path in doc then Some([doc[path]]) else None
    else
      var out := Leaves(Obj(doc), Split(path));
      if out == [] then None else Some(out)
  }

  function Lookup(doc: Doc, path: Bytes): Option<Value>
  {
    match LookupMulti(doc, path)
    case None => None
    case Some(vals) => Some(vals[0])
  }

  method FindValues(doc: Doc, path: Bytes) returns (r: Option<seq<Value>>)
    ensures r == LookupMulti(doc, path)
  {
    if path == [] { return None; }
    if DOT !in path {
      return if path in doc then Some([doc[path]]) else None;
    }
    var out := GatherLeaves(Obj(doc), Split(path));
    return if out == [] then None else Some(out);
  }

  // ---------------------------------------------------------------- laws

  lemma {:induction false} SplitHead(head: Bytes, rest: Bytes)
    requires DOT !in head
    ensures Split(head + [DOT] + rest) == [head] + Split(rest)
  {
    var path := head + [DOT] + rest;
    if head == [] {
      assert path[1..] == rest;
    } else {
      SplitHead(head[1..], rest);
      assert path[1..] == head[1..] + [DOT] + rest;
      assert head == [head[0]] + head[1..];
    }
  }

  lemma {:induction false} SplitPlain(part: Bytes)
    requires DOT !in part
    ensures Split(part) == [part]
  {
    if part != [] {
      SplitPlain(part[1..]);
      assert part == [part[0]] + part[1..];
    }
  }

  /** What a path finds below a value: the values that "x." and the path reach in a
      document whose only field x holds it. */
  function Under(v: Value, rest: Bytes): seq<Value>
  {
    match LookupMulti(map[Ascii("x") := v], Ascii("x.") + rest)
    case None => []
    case Some(vals) => vals
  }

  lemma UnderIsLeaves(v: Value, rest: Bytes)
    ensures Under(v, rest) == Leaves(v, Split(rest))
  {
    var x: Bytes := Ascii("x");
    assert x == [120] && Ascii("x.") == x + [DOT];
    var path := Ascii("x.") + rest;
    SplitHead(x, rest);
    assert path[1] == DOT;
    assert ([x] + Split(rest))[1..] == Split(rest);
  }

  /** A dotted path, step by step: a missing field and a scalar end it, an object is
      entered by the next name, and an array is gone through element by element, in
      order, without a step of the path. */
  lemma PathLaws(doc: Doc, head: Bytes, rest: Bytes, inner: Doc, items: seq<Value>, item: Value)
    requires '.' as int !in head && rest != []
    ensures var vals := LookupMulti(doc, head + Ascii(".") + rest);
            if head !in doc || Under(doc[head], rest) == [] then vals == None else vals == Some(Under(doc[head], rest))
    ensures Under(Obj(inner), rest) == match LookupMulti(inner, rest) case None => [] case Some(vals) => vals
    ensures Under(Arr([]), rest) == [] && Under(Arr(items + [item]), rest) == Under(Arr(items), rest) + Under(item, rest)
    ensures !item.Obj? && !item.Arr? ==> Under(item, rest) == []
  {
    DottedPath(doc, head, rest);
    IntoObject(inner, rest);
    hide LookupMulti, Leaves;
    var parts := Split(rest);
    UnderIsLeaves(Arr([]), rest);
    UnderIsLeaves(Arr(items + [item]), rest);
    UnderIsLeaves(Arr(items), rest);
    UnderIsLeaves(item, rest);
    IntoArray(items, item, parts);
  }

  lemma DottedPath(doc: Doc, head: Bytes, rest: Bytes)
    requires '.' as int !in head
    ensures var vals := LookupMulti(doc, head + Ascii(".") + rest);
            if head !in doc || Under(doc[head], rest) == [] then vals == None else vals == Some(Under(doc[head], rest))
  {
    hide Under;
    var parts := Split(rest);
    SplitHead(head, rest);
    assert Ascii(".") == [DOT];
    if head in doc { UnderIsLeaves(doc[head], rest); }
    var path := head + [DOT] + rest;
    assert path[|head|] == DOT;
    assert ([head] + parts)[1..] == parts;
  }

  lemma IntoObject(inner: Doc, rest: Bytes)
    requires rest != []
    ensures Under(Obj(inner), rest) == match LookupMulti(inner, rest) case None => [] case Some(vals) => vals
  {
    hide Under;
    UnderIsLeaves(Obj(inner), rest);
    if DOT !in rest { SplitPlain(rest); }
  }

  lemma IntoArray(items: seq<Value>, item: Value, parts: seq<Bytes>)
    requires parts != []
    ensures Leaves(Arr([]), parts) == []
    ensures Leaves(Arr(items + [item]), parts) == Leaves(Arr(items), parts) + Leaves(item, parts)
    ensures !item.Obj? && !item.Arr? ==> Leaves(item, parts) == []
  {
    assert LeavesOfItems(Arr([]), parts, 0) == [];
    FirstItems(items, item, parts, |items|);
    assert (items + [item])[|items|] == item;
  }

  lemma {:induction false} FirstItems(items: seq<Value>, item: Value, parts: seq<Bytes>, n: nat)
    requires n <= |items|
    ensures LeavesOfItems(Arr(items + [item]), parts, n) == LeavesOfItems(Arr(items), parts, n)
  {
    if n > 0 {
      FirstItems(items, item, parts, n - 1);
      assert (items + [item])[n - 1] == items[n - 1];
    }
  }
}
