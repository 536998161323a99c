/** The codec as the program runs it: a reader whose position moves over the bytes,
    and an encoder that appends to a buffer and patches each length in afterwards.
    Both are proved to compute the functions of Bson. */
module BsonMachine {
  import opened ByteCodec
  import opened Bson
  import opened BsonRoundTrip

  /** A read that returned r and left the position at now did what the codec says. */
  ghost predicate Agrees<T>(r: Option<T>, now: nat, want: Read<T>)
  {
    match want
    case Fail => r == None
    case Got(v, p) => r == Some(v) && now == p
  }

  class Reader {
    const b: Bytes
    var pos: nat

    ghost predicate Valid()
      reads this
    {
      pos <= |b|
    }

    constructor (b: Bytes)
      ensures Valid() && this.b == b && pos == 0
    {
      this.b := b;
      pos := 0;
    }

    method NextByte() returns (r: Option<Byte>)
      requires Valid()
      modifies this
      ensures Valid() && Agrees(r, pos, ReadByte(b, old(pos)))
    {
      if pos >= |b| { return None; }
      r := Some(b[pos]);
      pos := pos + 1;
    }

    method NextInt32() returns (r: Option<int>)
      requires Valid()
      modifies this
      ensures Valid() && Agrees(r, pos, ReadInt32(b, old(pos)))
    {
      if pos + 4 > |b| { return None; }
      r := Some(Signed(UnLE(b[pos..pos + 4]), 0x8000_0000));
      pos := pos + 4;
    }

    method NextInt64() returns (r: Option<int>)
      requires Valid()
      modifies this
      ensures Valid() && Agrees(r, pos, ReadInt64(b, old(pos)))
    {
      if pos + 8 > |b| { return None; }
      r := Some(Signed(UnLE(b[pos..pos + 8]), 0x8000_0000_0000_0000));
      pos := pos + 8;
    }

    method NextCString() returns (r: Option<Bytes>)
      requires Valid()
      modifies this
      ensures Valid() && Agrees(r, pos, ReadCString(b, old(pos)))
    {
      hide ReadCString;
      var i := pos;
      while i < |b|
        invariant pos <= i <= |b| && pos == old(pos)
        invariant forall k | pos <= k < i :: b[k] != 0
      {
        if b[i] == 0 {
          CStringEnds(b, pos, i);
          r := Some(b[pos..i]);
          pos := i + 1;
          return;
        }
        i := i + 1;
      }
      CStringRunsOut(b, pos);
      return None;
    }

    method NextString() returns (r: Option<Bytes>)
      requires Valid()
      modifies this
      ensures Valid() && Agrees(r, pos, ReadString(b, old(pos)))
    {
      var n := NextInt32();
      if n == None { return None; }
      if n.value < 1 || pos + n.value > |b| { return None; }
      r := Some(b[pos..pos + n.value - 1]);
      pos := pos + n.value;
    }

    method NextDocument(depth: nat) returns (r: Option<seq<Field>>)
      requires Valid()
      modifies this
      ensures Valid() && Agrees(r, pos, ReadDoc(b, old(pos), depth))
      decreases |b| - pos, 1
    {
      hide ReadValue, ReadCString, SetField, ReadInt32;
      if depth > MAX_DEPTH { return None; }
      var start := pos;
      var n := NextInt32();
      if n == None { return None; }
      if n.value < 5 { return None; }
      var end := start + n.value;
      if end > |b| { return None; }
      var doc: seq<Field> := [];
      ghost var p0 := pos;
      while true
        invariant Valid() && p0 <= pos && p0 > old(pos)
        invariant ReadFields(b, p0, depth, []) == ReadFields(b, pos, depth, doc)
        decreases |b| - pos
      {
        var t := NextByte();
        if t == None { return None; }
        if t.value == 0 { break; }
        var key := NextCString();
        if key == None { return None; }
        var v := NextValue(t.value, depth);
        if v == None { return None; }
        doc := SetField(doc, key.value, v.value);
      }
      return if pos != end then None else Some(doc);
    }

    method NextArray(depth: nat) returns (r: Option<seq<BVal>>)
      requires Valid()
      modifies this
      ensures Valid() && Agrees(r, pos, ReadArray(b, old(pos), depth))
      decreases |b| - pos, 1
    {
      hide ReadValue, ReadCString, ReadInt32;
      if depth > MAX_DEPTH { return None; }
      var start := pos;
      var n := NextInt32();
      if n == None { return None; }
      if n.value < 5 { return None; }
      var end := start + n.value;
      if end > |b| { return None; }
      var items: seq<BVal> := [];
      ghost var p0 := pos;
      while true
        invariant Valid() && p0 <= pos && p0 > old(pos)
        invariant ReadItems(b, p0, depth, []) == ReadItems(b, pos, depth, items)
        decreases |b| - pos
      {
        var t := NextByte();
        if t == None { return None; }
        if t.value == 0 { break; }
        var key := NextCString();
        if key == None { return None; }
        var v := NextValue(t.value, depth);
        if v == None { return None; }
        items := items + [v.value];
      }
      return if pos != end then None else Some(items);
    }

    method NextValue(t: Byte, depth: nat) returns (r: Option<BVal>)
      requires Valid()
      modifies this
      ensures Valid() && Agrees(r, pos, ReadValue(b, old(pos), t, depth))
      decreases |b| - pos, 2
    {
      hide ReadDoc, ReadArray, ReadInt32, ReadString;
      if t == T_DOUBLE {
        if pos + 8 > |b| { return None; }
        r := Some(Double(b[pos..pos + 8]));
        pos := pos + 8;
      } else if t == T_STRING || t == T_SYMBOL {
        var s := NextString();
        r := if s == None then None else Some(Str(s.value));
      } else if t == T_DOCUMENT {
        var d := NextDocument(depth + 1);
        r := if d == None then None else Some(Doc(d.value));
      } else if t == T_ARRAY {
        var items := NextArray(depth + 1);
        r := if items == None then None else Some(Arr(items.value));
      } else if t == T_UNDEFINED || t == T_NULL {
        r := Some(Null);
      } else if t == T_BOOL {
        var x := NextByte();
        r := if x == None then None else Some(Bool(x.value != 0));
      } else if t == T_INT32 {
        var n := NextInt32();
        r := if n == None then None else Some(Whole(n.value));
      } else if t == T_INT64 {
        var n := NextInt64();
        r := if n == None || !(-MAX_EXACT <= n.value <= MAX_EXACT) then None else Some(Whole(n.value));
      } else {
        r := None;
      }
    }
  }

  lemma {:induction false} CStringEnds(b: Bytes, pos: nat, i: nat)
    requires pos <= i < |b| && b[i] == 0 && forall k | pos <= k < i :: b[k] != 0
    ensures ReadCString(b, pos) == Got(b[pos..i], i + 1)
    decreases i - pos
  {
    if pos < i {
      CStringEnds(b, pos + 1, i);
      assert b[pos..i] == [b[pos]] + b[pos + 1..i];
    } else {
      assert b[pos..i] == [];
    }
  }

  lemma {:induction false} CStringRunsOut(b: Bytes, pos: nat)
    requires pos <= |b| && forall k | pos <= k < |b| :: b[k] != 0
    ensures ReadCString(b, pos) == Fail
    decreases |b| - pos
  {
    if pos < |b| { CStringRunsOut(b, pos + 1); }
  }

  method DecodeBSON(b: Bytes) returns (r: Option<seq<Field>>)
    ensures r == Decode(b)
  {
    hide ReadDoc;
    var reader := new Reader(b);
    var doc := reader.NextDocument(0);
    if doc == None { return None; }
    return if reader.pos != |b| then None else doc;
  }

  // ---------------------------------------------------------------- encoder

  /** An append that was given dst and returned r added exactly the bytes e. */
  predicate Appended(dst: Bytes, r: Option<Bytes>, e: Option<Bytes>)
  {
    match e
    case None => r == None
    case Some(bytes) => r == Some(dst + bytes)
  }

  method AppendDocument(dst: Bytes, fs: seq<Field>, depth: nat, ghost up: BVal) returns (r: Option<Bytes>)
    requires forall i | 0 <= i < |fs| :: fs[i].value < up
    ensures Appended(dst, r, EncDoc(up, fs, depth))
    decreases up, 0
  {
    hide EncElem, EncFields;
    if depth > MAX_DEPTH { return None; }
    var start := |dst|;
    var buf := dst + [0, 0, 0, 0];
    EncNoFields(up, depth);
    for i := 0 to |fs|
      invariant EncFields(up, fs[..i], depth).Some?
      invariant buf == dst + [0, 0, 0, 0] + EncFields(up, fs[..i], depth).value
    {
      var f := fs[i];
      var next := AppendElement(buf, f.key, f.value, depth);
      FieldsUpTo(up, fs, i + 1, depth);
      if next == None { return None; }
      buf := next.value;
    }
    assert fs[..|fs|] == fs;
    buf := buf + [0];
    LengthPatched(dst, EncFields(up, fs, depth).value);
    if |buf| - start > MAX_INT32 { return None; }
    return Some(buf[..start] + LenField(|buf| - start) + buf[start + 4..]);
  }

  method AppendArray(dst: Bytes, items: seq<BVal>, depth: nat, ghost up: BVal) returns (r: Option<Bytes>)
    requires forall i | 0 <= i < |items| :: items[i] < up
    ensures Appended(dst, r, EncArray(up, items, depth))
    decreases up, 0
  {
    hide EncElem, EncItems;
    if depth > MAX_DEPTH { return None; }
    var start := |dst|;
    var buf := dst + [0, 0, 0, 0];
    EncNoItems(up, depth + 1);
    for i := 0 to |items|
      invariant EncItems(up, items[..i], depth + 1).Some?
      invariant buf == dst + [0, 0, 0, 0] + EncItems(up, items[..i], depth + 1).value
    {
      var next := AppendElement(buf, Digits(i), items[i], depth + 1);
      ItemsUpTo(up, items, i + 1, depth + 1);
      if next == None { return None; }
      buf := next.value;
    }
    assert items[..|items|] == items;
    buf := buf + [0];
    LengthPatched(dst, EncItems(up, items, depth + 1).value);
    return Some(buf[..start] + LenField(|buf| - start) + buf[start + 4..]);
  }

  method AppendElement(dst: Bytes, key: Bytes, v: BVal, depth: nat) returns (r: Option<Bytes>)
    ensures Appended(dst, r, EncElem(key, v, depth))
    decreases v, 1
  {
    if 0 in key { return None; }
    var buf := dst + [TypeOf(v)];
    buf := buf + key + [0];
    ghost var head := [TypeOf(v)] + CString(key);
    assert buf == dst + head;
    ghost var e := EncValue(v, depth);
    Associates(dst, head, e);
    match v
    case Null =>
      r := Some(buf);
      assert buf + [] == buf;
    case Bool(x) => r := Some(buf + [if x then 1 else 0]);
    case Whole(n) =>
      if NumberType(n) == T_INT32 {
        r := Some(buf + LE(n % TWO32, 4));
      } else {
        r := Some(buf + LE(n % TWO64, 8));
      }
    case Double(bits) => r := Some(buf + bits);
    case Str(s) => r := Some(buf + (LenField(|s| + 1) + s + [0]));
    case Arr(items) => r := AppendArray(buf, items, depth, v);
    case Doc(fs) =>
      if Reserved(fs) { return None; }
      r := AppendDocument(buf, fs, depth + 1, v);
  }

  lemma Associates(dst: Bytes, head: Bytes, e: Option<Bytes>)
    ensures e.Some? ==> (dst + head) + e.value == dst + (head + e.value)
  {
  }

  /** A frame whose length was left blank and patched in once the body was there. */
  lemma LengthPatched(dst: Bytes, body: Bytes)
    ensures var buf := dst + [0, 0, 0, 0] + body + [0];
            var len := LenField(|body| + 5);
            |buf| - |dst| == |body| + 5 && buf[..|dst|] + len + buf[|dst| + 4..] == dst + (len + body + [0])
  {
    var buf := dst + [0, 0, 0, 0] + body + [0];
    assert buf[..|dst|] == dst && buf[|dst| + 4..] == body + [0];
  }

  /** The first k fields encode to the first k - 1 and then one more element; and when
      they do not encode, neither does the document. */
  lemma {:induction false} FieldsUpTo(up: BVal, fs: seq<Field>, k: nat, depth: nat)
    requires (forall i | 0 <= i < |fs| :: fs[i].value < up) && 0 < k <= |fs|
    requires EncFields(up, fs[..k - 1], depth).Some?
    ensures var e := EncElem(fs[k - 1].key, fs[k - 1].value, depth);
            && (e == None ==> EncFields(up, fs, depth) == None)
            && (e.Some? ==> EncFields(up, fs[..k], depth) == Some(EncFields(up, fs[..k - 1], depth).value + e.value))
  {
    hide EncElem;
    assert fs[..k][..k - 1] == fs[..k - 1] && fs[..k][k - 1] == fs[k - 1];
    if EncFields(up, fs, depth).Some? { EncFieldsGrow(up, fs, k, depth); }
  }

  lemma {:induction false} ItemsUpTo(up: BVal, items: seq<BVal>, k: nat, depth: nat)
    requires (forall i | 0 <= i < |items| :: items[i] < up) && 0 < k <= |items|
    requires EncItems(up, items[..k - 1], depth).Some?
    ensures var e := EncElem(Digits(k - 1), items[k - 1], depth);
            && (e == None ==> EncItems(up, items, depth) == None)
            && (e.Some? ==> EncItems(up, items[..k], depth) == Some(EncItems(up, items[..k - 1], depth).value + e.value))
  {
    hide EncElem, Digits;
    assert items[..k][..k - 1] == items[..k - 1] && items[..k][k - 1] == items[k - 1];
    if EncItems(up, items, depth).Some? { EncItemsGrow(up, items, k, depth); }
  }

  method EncodeBSON(fs: seq<Field>) returns (r: Option<Bytes>)
    ensures r == Encode(fs)
  {
    hide EncDoc;
    r := AppendDocument([], fs, 0, Doc(fs));
    assert forall e: Bytes :: [] + e == e;
  }
}
