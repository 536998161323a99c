/** Encoding then decoding gives the document back, exactly when no array sits at
    the encoder's deepest level. */
module BsonRoundTrip {
  import opened ByteCodec
  import opened Bson

  /** What the program's own values satisfy: numbers in the form numberType expects
      and maps in canonical order, at every level. */
  predicate Canonical(v: BVal)
  {
    match v
    case Whole(n) => -MAX_EXACT <= n <= MAX_EXACT
    case Double(bits) => |bits| == 8
    case Arr(items) => forall i | 0 <= i < |items| :: Canonical(items[i])
    case Doc(fs) => AscendingKeys(fs) && forall i | 0 <= i < |fs| :: Canonical(fs[i].value)
    case _ => true
  }

  /** No array at encode depth 100: the decoder counts an array as one level deeper
      than the encoder does. */
  predicate ArraysFit(v: BVal, depth: nat)
  {
    match v
    case Arr(items) => depth < MAX_DEPTH && forall i | 0 <= i < |items| :: ArraysFit(items[i], depth + 1)
    case Doc(fs) => forall i | 0 <= i < |fs| :: ArraysFit(fs[i].value, depth + 1)
    case _ => true
  }

  // ---------------------------------------------------------------- primitives

  lemma MiddleSlice(pre: Bytes, e: Bytes, post: Bytes)
    ensures (pre + e + post)[|pre|..|pre| + |e|] == e
  {
  }

  /** The bytes of a document or an array, cut in the three ways the proofs look at them. */
  lemma Framed(pre: Bytes, len: Bytes, body: Bytes, post: Bytes)
    ensures var b := pre + (len + body + [0]) + post;
            && b == pre + len + (body + [0] + post)
            && b == (pre + len) + body + ([0] + post)
            && b[|pre| + |len| + |body|] == 0
  {
  }

  lemma Int32RoundTrip(pre: Bytes, n: int, post: Bytes)
    requires MIN_INT32 <= n <= MAX_INT32
    ensures ReadInt32(pre + LE(n % TWO32, 4) + post, |pre|) == Got(n, |pre| + 4)
  {
    SpanOfWords();
    LERoundTrip(n % TWO32, 4);
    MiddleSlice(pre, LE(n % TWO32, 4), post);
  }

  lemma Int64RoundTrip(pre: Bytes, n: int, post: Bytes)
    requires -MAX_EXACT <= n <= MAX_EXACT
    ensures ReadInt64(pre + LE(n % TWO64, 8) + post, |pre|) == Got(n, |pre| + 8)
  {
    SpanOfWords();
    LERoundTrip(n % TWO64, 8);
    MiddleSlice(pre, LE(n % TWO64, 8), post);
  }

  lemma {:induction false} CStringRoundTrip(pre: Bytes, s: Bytes, post: Bytes)
    requires 0 !in s
    ensures ReadCString(pre + CString(s) + post, |pre|) == Got(s, |pre| + |s| + 1)
    decreases |s|
  {
    var b := pre + CString(s) + post;
    if s == [] {
      assert b[|pre|] == 0;
    } else {
      CStringRoundTrip(pre + [s[0]], s[1..], post);
      assert b == (pre + [s[0]]) + CString(s[1..]) + post;
      assert b[|pre|] == s[0] && s[0] in s;
      assert s == [s[0]] + s[1..];
    }
  }

  lemma StringRoundTrip(pre: Bytes, s: Bytes, post: Bytes)
    requires |s| + 1 <= MAX_INT32
    ensures ReadString(pre + (LenField(|s| + 1) + s + [0]) + post, |pre|) == Got(s, |pre| + |s| + 5)
  {
    var b := pre + (LenField(|s| + 1) + s + [0]) + post;
    Int32RoundTrip(pre, |s| + 1, s + [0] + post);
    assert b == pre + LenField(|s| + 1) + (s + [0] + post);
    var p := |pre| + 4;
    assert b[p..p + |s|] == s by {
      MiddleSlice(pre + LenField(|s| + 1), s, [0] + post);
      assert b == (pre + LenField(|s| + 1)) + s + ([0] + post);
    }
  }

  // ---------------------------------------------------------------- values

  /** What reading back a value that was encoded as e must give. */
  predicate ReadsBack(v: BVal, depth: nat, pre: Bytes, e: Bytes, post: Bytes)
  {
    ReadValue(pre + e + post, |pre|, TypeOf(v), depth)
    == if ArraysFit(v, depth) then Got(v, |pre| + |e|) else Fail
  }

  lemma ScalarReadsBack(v: BVal, depth: nat, pre: Bytes, e: Bytes, post: Bytes)
    requires Canonical(v) && EncValue(v, depth) == Some(e) && |e| <= MAX_INT32 && !v.Arr? && !v.Doc?
    ensures ReadsBack(v, depth, pre, e, post)
  {
    var b := pre + e + post;
    match v
    case Null =>
    case Bool(x) => assert b[|pre|] == e[0];
    case Whole(n) =>
      if NumberType(n) == T_INT32 { Int32RoundTrip(pre, n, post); } else { Int64RoundTrip(pre, n, post); }
    case Double(bits) => MiddleSlice(pre, e, post);
    case Str(s) => StringRoundTrip(pre, s, post);
  }

  lemma {:induction false} ValueReadsBack(v: BVal, depth: nat, pre: Bytes, e: Bytes, post: Bytes)
    requires Canonical(v) && EncValue(v, depth) == Some(e) && |e| <= MAX_INT32
    ensures ReadsBack(v, depth, pre, e, post)
    decreases v, 2
  {
    match v
    case Arr(items) =>
      ArrFit(v, items, depth);
      if depth < MAX_DEPTH { ArrayReadsBack(v, items, depth, pre, e, post); }
    case Doc(fs) =>
      DocFit(v, fs, depth);
      DocReadsBack(v, fs, depth + 1, pre, e, post);
    case _ => ScalarReadsBack(v, depth, pre, e, post);
  }

  predicate ItemsFit(items: seq<BVal>, k: nat, depth: nat)
    requires k <= |items|
  {
    forall i | 0 <= i < k :: ArraysFit(items[i], depth)
  }

  predicate FieldsFit(fs: seq<Field>, k: nat, depth: nat)
    requires k <= |fs|
  {
    forall i | 0 <= i < k :: ArraysFit(fs[i].value, depth)
  }

  lemma ArrFit(v: BVal, items: seq<BVal>, depth: nat)
    requires v == Arr(items)
    ensures ArraysFit(v, depth) == (depth < MAX_DEPTH && ItemsFit(items, |items|, depth + 1))
  {
  }

  lemma DocFit(v: BVal, fs: seq<Field>, depth: nat)
    requires v == Doc(fs)
    ensures ArraysFit(v, depth) == FieldsFit(fs, |fs|, depth + 1)
  {
  }

  /** Reading one element written at pos: its value and the position after it. */
  lemma {:induction false} ElemReadsBack(key: Bytes, v: BVal, depth: nat, pre: Bytes, e: Bytes, post: Bytes)
    requires Canonical(v) && EncElem(key, v, depth) == Some(e) && |e| <= MAX_INT32
    ensures var b := pre + e + post;
            var q := |pre| + 1 + |key| + 1;
            && |e| >= 2 + |key| && b[|pre|] == TypeOf(v) != 0
            && ReadCString(b, |pre| + 1) == Got(key, q) && q <= |b|
            && ReadValue(b, q, TypeOf(v), depth) == (if ArraysFit(v, depth) then Got(v, |pre| + |e|) else Fail)
    decreases v, 3
  {
    hide ReadValue, ReadCString, ArraysFit;
    var payload := EncValue(v, depth).value;
    var b := pre + e + post;
    var head := [TypeOf(v)] + CString(key);
    assert b == (pre + [TypeOf(v)]) + CString(key) + (payload + post);
    CStringRoundTrip(pre + [TypeOf(v)], key, payload + post);
    assert b == (pre + head) + payload + post;
    ValueReadsBack(v, depth, pre + head, payload, post);
  }

  // ---------------------------------------------------------------- documents

  lemma {:induction false} EncFieldsGrow(up: BVal, fs: seq<Field>, k: nat, depth: nat)
    requires (forall i | 0 <= i < |fs| :: fs[i].value < up) && k <= |fs| && EncFields(up, fs, depth).Some?
    ensures EncFields(up, fs[..k], depth).Some? && EncFields(up, fs[..k], depth).value <= EncFields(up, fs, depth).value
  {
    if k < |fs| {
      EncFieldsGrow(up, fs[..|fs| - 1], k, depth);
      assert fs[..|fs| - 1][..k] == fs[..k];
    } else {
      assert fs[..k] == fs;
    }
  }

  /** After reading the first k fields the decoder holds them and stands behind them,
      or it has already failed on an array that does not fit. */
  lemma {:induction false} FieldsReadBack(up: BVal, fs: seq<Field>, k: nat, depth: nat, pre: Bytes, body: Bytes,
      post: Bytes)
    requires (forall i | 0 <= i < |fs| :: fs[i].value < up && Canonical(fs[i].value)) && AscendingKeys(fs)
    requires k <= |fs| && EncFields(up, fs, depth) == Some(body) && |body| <= MAX_INT32
    ensures EncFields(up, fs[..k], depth).Some?
    ensures var b := pre + body + post;
            var at := |pre| + |EncFields(up, fs[..k], depth).value|;
            && at <= |b|
            && ReadFields(b, |pre|, depth, [])
               == if FieldsFit(fs, k, depth) then ReadFields(b, at, depth, fs[..k]) else Fail
    decreases up, 1, k
  {
    hide ReadFields, ReadValue, ReadCString, EncElem, EncFields, ArraysFit, Canonical, SetField, TypeOf;
    EncFieldsGrow(up, fs, k, depth);
    var b := pre + body + post;
    if k == 0 {
      EncNoFields(up, depth);
      assert fs[..0] == [];
    } else {
      FieldsReadBack(up, fs, k - 1, depth, pre, body, post);
      var front, e := EncFieldsStep(up, fs, k, depth);
      var f := fs[k - 1];
      var upTo := EncFields(up, fs[..k], depth).value;
      var rest := body[|upTo|..] + post;
      assert b == (pre + front) + e + rest;
      ElemReadsBack(f.key, f.value, depth, pre + front, e, rest);
      assert fs[..k - 1] + [f] == fs[..k];
      SetFieldAppends(fs[..k - 1], f);
      FieldStep(b, |pre + front|, depth, fs[..k - 1], f, |pre| + |upTo|);
    }
  }

  lemma EncNoFields(up: BVal, depth: nat)
    ensures EncFields(up, [], depth) == Some([])
  {
  }

  lemma {:induction false} EncFieldsStep(up: BVal, fs: seq<Field>, k: nat, depth: nat) returns (front: Bytes, e: Bytes)
    requires (forall i | 0 <= i < |fs| :: fs[i].value < up) && 0 < k <= |fs| && EncFields(up, fs, depth).Some?
    ensures EncFields(up, fs[..k - 1], depth) == Some(front)
    ensures EncElem(fs[k - 1].key, fs[k - 1].value, depth) == Some(e)
    ensures EncFields(up, fs[..k], depth) == Some(front + e) && front + e <= EncFields(up, fs, depth).value
  {
    hide EncElem;
    EncFieldsGrow(up, fs, k, depth);
    EncFieldsGrow(up, fs, k - 1, depth);
    assert fs[..k][..k - 1] == fs[..k - 1] && fs[..k][k - 1] == fs[k - 1];
    front := EncFields(up, fs[..k - 1], depth).value;
    e := EncElem(fs[k - 1].key, fs[k - 1].value, depth).value;
  }

  /** One turn of the decoder's loop. */
  lemma FieldStep(b: Bytes, pos: nat, depth: nat, acc: seq<Field>, f: Field, after: nat)
    requires pos < |b| && b[pos] == TypeOf(f.value) != 0 && pos + |f.key| + 2 <= |b|
    requires ReadCString(b, pos + 1) == Got(f.key, pos + |f.key| + 2)
    requires SetField(acc, f.key, f.value) == acc + [f]
    requires after <= |b|
    requires ReadValue(b, pos + |f.key| + 2, TypeOf(f.value), depth)
             == (if ArraysFit(f.value, depth) then Got(f.value, after) else Fail)
    ensures ReadFields(b, pos, depth, acc)
            == if ArraysFit(f.value, depth) then ReadFields(b, after, depth, acc + [f]) else Fail
  {
    hide ReadValue, ReadCString, ArraysFit, SetField;
  }

  lemma {:induction false} DocReadsBack(up: BVal, fs: seq<Field>, depth: nat, pre: Bytes, e: Bytes, post: Bytes)
    requires (forall i | 0 <= i < |fs| :: fs[i].value < up && Canonical(fs[i].value)) && AscendingKeys(fs)
    requires EncDoc(up, fs, depth) == Some(e)
    ensures ReadDoc(pre + e + post, |pre|, depth)
            == if FieldsFit(fs, |fs|, depth) then Got(fs, |pre| + |e|) else Fail
    decreases up, 1, |fs| + 1
  {
    hide ReadFields, EncFields, ReadInt32, ReadValue, EncElem, LE, Canonical, ArraysFit, AscendingKeys, FieldsFit;
    var body := EncFields(up, fs, depth).value;
    var len := LenField(|body| + 5);
    var b := pre + e + post;
    Framed(pre, len, body, post);
    Int32RoundTrip(pre, |body| + 5, body + [0] + post);
    FieldsReadBack(up, fs, |fs|, depth, pre + len, body, [0] + post);
    assert fs[..|fs|] == fs;
    var at := |pre| + 4 + |body|;
    FieldsEnd(b, at, depth, fs);
  }

  lemma FieldsEnd(b: Bytes, at: nat, depth: nat, acc: seq<Field>)
    requires at < |b| && b[at] == 0
    ensures ReadFields(b, at, depth, acc) == Got(acc, at + 1)
  {
  }

  // ---------------------------------------------------------------- arrays

  lemma {:induction false} EncItemsGrow(up: BVal, items: seq<BVal>, k: nat, depth: nat)
    requires (forall i | 0 <= i < |items| :: items[i] < up) && k <= |items| && EncItems(up, items, depth).Some?
    ensures EncItems(up, items[..k], depth).Some?
    ensures EncItems(up, items[..k], depth).value <= EncItems(up, items, depth).value
  {
    if k < |items| {
      EncItemsGrow(up, items[..|items| - 1], k, depth);
      assert items[..|items| - 1][..k] == items[..k];
    } else {
      assert items[..k] == items;
    }
  }

  lemma {:induction false} ItemsReadBack(up: BVal, items: seq<BVal>, k: nat, depth: nat, pre: Bytes, body: Bytes,
      post: Bytes)
    requires forall i | 0 <= i < |items| :: items[i] < up && Canonical(items[i])
    requires k <= |items| && EncItems(up, items, depth) == Some(body) && |body| <= MAX_INT32
    ensures EncItems(up, items[..k], depth).Some?
    ensures var b := pre + body + post;
            var at := |pre| + |EncItems(up, items[..k], depth).value|;
            && at <= |b|
            && ReadItems(b, |pre|, depth, [])
               == if ItemsFit(items, k, depth) then ReadItems(b, at, depth, items[..k]) else Fail
    decreases up, 1, k
  {
    hide ReadItems, ReadValue, ReadCString, EncElem, EncItems, ArraysFit, Canonical, Digits, TypeOf;
    EncItemsGrow(up, items, k, depth);
    var b := pre + body + post;
    if k == 0 {
      EncNoItems(up, depth);
      assert items[..0] == [];
    } else {
      ItemsReadBack(up, items, k - 1, depth, pre, body, post);
      var front, e := EncItemsStep(up, items, k, depth);
      var v := items[k - 1];
      var upTo := EncItems(up, items[..k], depth).value;
      var rest := body[|upTo|..] + post;
      assert b == (pre + front) + e + rest;
      ElemReadsBack(Digits(k - 1), v, depth, pre + front, e, rest);
      assert items[..k - 1] + [v] == items[..k];
      ItemStep(b, |pre + front|, depth, items[..k - 1], Digits(k - 1), v, |pre| + |upTo|);
    }
  }

  lemma EncNoItems(up: BVal, depth: nat)
    ensures EncItems(up, [], depth) == Some([])
  {
  }

  lemma {:induction false} EncItemsStep(up: BVal, items: seq<BVal>, k: nat, depth: nat) returns (front: Bytes, e: Bytes)
    requires (forall i | 0 <= i < |items| :: items[i] < up) && 0 < k <= |items| && EncItems(up, items, depth).Some?
    ensures EncItems(up, items[..k - 1], depth) == Some(front)
    ensures EncElem(Digits(k - 1), items[k - 1], depth) == Some(e)
    ensures EncItems(up, items[..k], depth) == Some(front + e) && front + e <= EncItems(up, items, depth).value
  {
    hide EncElem, Digits;
    EncItemsGrow(up, items, k, depth);
    EncItemsGrow(up, items, k - 1, depth);
    assert items[..k][..k - 1] == items[..k - 1] && items[..k][k - 1] == items[k - 1];
    front := EncItems(up, items[..k - 1], depth).value;
    e := EncElem(Digits(k - 1), items[k - 1], depth).value;
  }

  lemma ItemStep(b: Bytes, pos: nat, depth: nat, acc: seq<BVal>, key: Bytes, v: BVal, after: nat)
    requires pos < |b| && b[pos] == TypeOf(v) != 0 && pos + |key| + 2 <= |b|
    requires ReadCString(b, pos + 1) == Got(key, pos + |key| + 2) && after <= |b|
    requires ReadValue(b, pos + |key| + 2, TypeOf(v), depth) == (if ArraysFit(v, depth) then Got(v, after) else Fail)
    ensures ReadItems(b, pos, depth, acc)
            == if ArraysFit(v, depth) then ReadItems(b, after, depth, acc + [v]) else Fail
  {
    hide ReadValue, ReadCString, ArraysFit;
  }

  lemma {:induction false} ArrayReadsBack(up: BVal, items: seq<BVal>, depth: nat, pre: Bytes, e: Bytes, post: Bytes)
    requires (forall i | 0 <= i < |items| :: items[i] < up && Canonical(items[i])) && depth < MAX_DEPTH
    requires EncArray(up, items, depth) == Some(e) && |e| <= MAX_INT32
    ensures ReadArray(pre + e + post, |pre|, depth + 1)
            == if ItemsFit(items, |items|, depth + 1) then Got(items, |pre| + |e|) else Fail
    decreases up, 1, |items| + 1
  {
    hide ReadItems, EncItems, ReadInt32, ReadValue, EncElem, LE, Canonical, ArraysFit, ItemsFit;
    var body := EncItems(up, items, depth + 1).value;
    var len := LenField(|body| + 5);
    var b := pre + e + post;
    Framed(pre, len, body, post);
    Int32RoundTrip(pre, |body| + 5, body + [0] + post);
    ItemsReadBack(up, items, |items|, depth + 1, pre + len, body, [0] + post);
    assert items[..|items|] == items;
    var at := |pre| + 4 + |body|;
    ItemsEnd(b, at, depth + 1, items);
  }

  lemma ItemsEnd(b: Bytes, at: nat, depth: nat, acc: seq<BVal>)
    requires at < |b| && b[at] == 0
    ensures ReadItems(b, at, depth, acc) == Got(acc, at + 1)
  {
  }

  // ---------------------------------------------------------------- the theorem

  /** Whatever the encoder accepts decodes to the same document, consuming every
      byte, if and only if no array lies at encode depth 100; otherwise it does not
      decode at all. */
  lemma RoundTrip(fs: seq<Field>, b: Bytes)
    requires Canonical(Doc(fs)) && Encode(fs) == Some(b)
    ensures Decode(b) == if FieldsFit(fs, |fs|, 0) then Some(fs) else None
  {
    hide ReadDoc, EncDoc;
    assert forall i | 0 <= i < |fs| :: Canonical(fs[i].value);
    DocReadsBack(Doc(fs), fs, 0, [], b, []);
    assert [] + b + [] == b;
  }

  // ---------------------------------------------------------------- a document that is lost

  /** An empty array under n nested documents with one field each. */
  function Deep(n: nat): BVal
  {
    if n == 0 then Arr([]) else Doc([Field([97], Deep(n - 1))])
  }

  lemma {:induction false} DeepMisfits(n: nat, depth: nat)
    requires n + depth == MAX_DEPTH
    ensures Canonical(Deep(n)) && !ArraysFit(Deep(n), depth)
  {
    if n > 0 {
      DeepMisfits(n - 1, depth + 1);
      assert Deep(n).fields[0].value == Deep(n - 1);
    }
  }

  lemma {:induction false} DeepEncodes(n: nat, depth: nat)
    requires n + depth == MAX_DEPTH
    ensures EncValue(Deep(n), depth).Some? && |EncValue(Deep(n), depth).value| == 5 + 8 * n
  {
    if n == 0 {
      hide EncItems;
      EncNoItems(Deep(0), depth + 1);
    } else {
      hide EncDoc;
      DeepEncodes(n - 1, depth + 1);
      FieldInside([97], Deep(n - 1));
      OneFieldEncodes(Deep(n), [97], Deep(n - 1), depth + 1);
      assert Text([97]) == "a";
    }
  }

  lemma FieldInside(key: Bytes, v: BVal)
    ensures v < Doc([Field(key, v)])
  {
    var fs := [Field(key, v)];
    assert fs[0] == Field(key, v);
    assert fs[0] < Doc(fs);
  }

  lemma {:induction false} OneFieldEncodes(up: BVal, key: Bytes, v: BVal, depth: nat)
    requires v < up && 0 !in key && depth <= MAX_DEPTH && up == Doc([Field(key, v)])
    requires EncValue(v, depth).Some? && |EncValue(v, depth).value| <= 0x1_0000 && |key| <= 0x1_0000
    ensures EncDoc(up, [Field(key, v)], depth).Some?
    ensures |EncDoc(up, [Field(key, v)], depth).value| == |EncValue(v, depth).value| + |key| + 7
  {
    hide EncValue;
    var fs := [Field(key, v)];
    EncNoFields(up, depth);
    assert fs[..|fs| - 1] == [];
    assert EncFields(up, fs, depth) == EncElem(key, v, depth) by {
      var e := EncElem(key, v, depth).value;
      assert [] + e == e;
    }
  }

  /** The failure on one input: with an array at encode depth 100 the encoder succeeds
      and the decoder refuses its output. */
  lemma DeepArrayIsLost()
    ensures var fs := [Field([97], Deep(MAX_DEPTH))];
            Encode(fs).Some? && Decode(Encode(fs).value) == None
  {
    hide EncValue, EncDoc, EncFields, Decode, ArraysFit, Deep;
    var v := Deep(MAX_DEPTH);
    var fs := [Field([97], v)];
    DeepEncodes(MAX_DEPTH, 0);
    DeepMisfits(MAX_DEPTH, 0);
    FieldInside([97], v);
    OneFieldEncodes(Doc(fs), [97], v, 0);
    assert fs[0].value == v;
    RoundTrip(fs, Encode(fs).value);
  }
}
