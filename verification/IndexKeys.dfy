/** Index keys: the values an index row holds, their order, and the compound key text
    with its prefix property. */
module IndexKeys {
  import opened ByteCodec

  const SEP: Byte := 0x1f

  /** One component of an index row. Objects and nested arrays take part only through
      their JSON text. */
  datatype KeyVal =
    | Missing
    | Number(n: int)
    | Text(s: Bytes)
    | Flag(b: bool)
    | Other(json: Bytes)

  type Row = seq<KeyVal>

  /** JSON text escapes control characters, so it never holds the separator. */
  predicate ValOk(v: KeyVal) { v.Other? ==> SEP !in v.json }

  predicate RowOk(row: Row) { forall i | 0 <= i < |row| :: ValOk(row[i]) }

  /** What the program's number formatting guarantees: one text a number, no separator. */
  ghost predicate NumberText(tx: int -> Bytes)
  {
    && (forall n: int :: SEP !in tx(n))
    && (forall m: int, n: int :: tx(m) == tx(n) ==> m == n)
  }

  // ---------------------------------------------------------------- the key text

  function EncodeValue(tx: int -> Bytes, v: KeyVal): (e: Bytes)
    ensures |e| >= 2
  {
    match v
    case Missing => [117, 58]
    case Number(n) => [110, 58] + tx(n)
    case Text(s) => [115, 58] + Digits(|s|) + [58] + s
    case Flag(b) => [98, 58] + if b then [116, 114, 117, 101] else [102, 97, 108, 115, 101]
    case Other(json) => [106, 58] + json
  }

  /** The components joined by the separator. */
  function EncodeKey(tx: int -> Bytes, row: Row): (k: Bytes)
    ensures row != [] ==> k != []
    decreases |row|, 0
  {
    if row == [] then [] else EncodeValue(tx, row[0]) + After(tx, row[1..])
  }

  function After(tx: int -> Bytes, row: Row): (k: Bytes)
    ensures k == [] || k[0] == SEP
    decreases |row|, 1
  {
    if row == [] then [] else [SEP] + EncodeKey(tx, row)
  }

  /** The key text: the texts of the components with the unit separator between them. */
  lemma KeyText(tx: int -> Bytes, v: KeyVal, w: KeyVal, rest: Row)
    ensures EncodeKey(tx, []) == [] && EncodeKey(tx, [v]) == EncodeValue(tx, v)
    ensures EncodeKey(tx, [v, w] + rest) == EncodeValue(tx, v) + [0x1f] + EncodeKey(tx, [w] + rest)
  {
    hide EncodeValue;
    KeyHead(tx, [v]);
    KeyHead(tx, [v, w] + rest);
    assert ([v, w] + rest)[1..] == [w] + rest && [v][1..] == [];
    assert After(tx, [w] + rest) == [0x1f] + EncodeKey(tx, [w] + rest);
  }

  /** The text of a component: a tag for its type and the value, a string with its
      length. */
  lemma ValueText(tx: int -> Bytes, v: KeyVal)
    ensures v.Missing? ==> EncodeValue(tx, v) == Ascii("u:")
    ensures v.Number? ==> EncodeValue(tx, v) == Ascii("n:") + tx(v.n)
    ensures v.Text? ==> EncodeValue(tx, v) == Ascii("s:") + Digits(|v.s|) + Ascii(":") + v.s
    ensures v.Flag? ==> EncodeValue(tx, v) == if v.b then Ascii("b:true") else Ascii("b:false")
    ensures v.Other? ==> EncodeValue(tx, v) == Ascii("j:") + v.json
  {
    TagTexts();
    hide Ascii;
  }

  lemma TagTexts()
    ensures Ascii("u:") == [117, 58] && Ascii("n:") == [110, 58] && Ascii("s:") == [115, 58] && Ascii(":") == [58]
    ensures Ascii("b:true") == [98, 58] + [116, 114, 117, 101]
    ensures Ascii("b:false") == [98, 58] + [102, 97, 108, 115, 101]
    ensures Ascii("j:") == [106, 58]
  {
  }

  lemma {:induction false} DigitsInjective(m: nat, n: nat)
    requires Digits(m) == Digits(n)
    ensures m == n
  {
    var a, b := Digits(m), Digits(n);
    assert a[|a| - 1] == 48 + m % 10 && b[|b| - 1] == 48 + n % 10;
    if m >= 10 && n >= 10 {
      assert a[..|a| - 1] == Digits(m / 10) && b[..|b| - 1] == Digits(n / 10);
      DigitsInjective(m / 10, n / 10);
    }
  }

  lemma CutPoint(c: Byte, a: Bytes, x: Bytes, b: Bytes, y: Bytes)
    requires a + x == b + y && |a| < |b| && (x == [] || x[0] == c)
    ensures b[|a|] == c
  {
    assert |a| + |x| == |b| + |y|;
    assert b[|a|] == (b + y)[|a|] == (a + x)[|a|];
  }

  /** Two texts free of c, each followed by nothing or by c, cut at the same place. */
  lemma CutAt(c: Byte, a: Bytes, x: Bytes, b: Bytes, y: Bytes)
    requires a + x == b + y && c !in a && c !in b
    requires (x == [] || x[0] == c) && (y == [] || y[0] == c)
    ensures a == b && x == y
  {
    assert |a| + |x| == |b| + |y|;
    if |a| < |b| { CutPoint(c, a, x, b, y); }
    if |b| < |a| { CutPoint(c, b, y, a, x); }
    assert a == (a + x)[..|a|] && b == (b + y)[..|b|];
    assert x == (a + x)[|a|..] && y == (b + y)[|b|..];
  }

  /** The first component of a key can be read off its text, whatever follows, even
      when a string holds the separator. */
  lemma FirstComponent(tx: int -> Bytes, v: KeyVal, x: Bytes, w: KeyVal, y: Bytes)
    requires NumberText(tx) && ValOk(v) && ValOk(w)
    requires (x == [] || x[0] == SEP) && (y == [] || y[0] == SEP)
    requires EncodeValue(tx, v) + x == EncodeValue(tx, w) + y
    ensures v == w && x == y
  {
    hide EncodeValue, NumberText, ValOk;
    var e, f := EncodeValue(tx, v), EncodeValue(tx, w);
    assert e[0] == (e + x)[0] == (f + y)[0] == f[0];
    TextTag(tx, v);
    TextTag(tx, w);
    if v.Text? {
      TextFirst(tx, v, x, w, y);
    } else {
      SeparatorFree(tx, v);
      SeparatorFree(tx, w);
      CutAt(SEP, e, x, f, y);
      PlainComponent(tx, v, w);
    }
  }

  lemma TextTag(tx: int -> Bytes, v: KeyVal)
    ensures EncodeValue(tx, v)[0] == 115 <==> v.Text?
  {
    hide Digits;
  }

  lemma TextFirst(tx: int -> Bytes, v: KeyVal, x: Bytes, w: KeyVal, y: Bytes)
    requires v.Text? && w.Text? && EncodeValue(tx, v) + x == EncodeValue(tx, w) + y
    ensures v == w && x == y
  {
    hide Digits;
    var e, f := EncodeValue(tx, v), EncodeValue(tx, w);
    assert Digits(|v.s|) + ([58] + v.s + x) == (e + x)[2..];
    assert Digits(|w.s|) + ([58] + w.s + y) == (f + y)[2..];
    TextComponent(v.s, x, w.s, y);
  }

  lemma PlainComponent(tx: int -> Bytes, v: KeyVal, w: KeyVal)
    requires NumberText(tx) && !v.Text? && EncodeValue(tx, v) == EncodeValue(tx, w)
    ensures v == w
  {
    var e, f := EncodeValue(tx, v), EncodeValue(tx, w);
    assert e[0] == f[0] && e[2..] == f[2..];
    if v.Flag? { assert e[2] == f[2]; }
  }

  lemma SeparatorFree(tx: int -> Bytes, v: KeyVal)
    requires NumberText(tx) && ValOk(v) && !v.Text?
    ensures SEP !in EncodeValue(tx, v)
  {
  }

  lemma TextComponent(s: Bytes, x: Bytes, t: Bytes, y: Bytes)
    requires Digits(|s|) + ([58] + s + x) == Digits(|t|) + ([58] + t + y)
    ensures s == t && x == y
  {
    hide Digits;
    CutAt(58, Digits(|s|), [58] + s + x, Digits(|t|), [58] + t + y);
    DigitsInjective(|s|, |t|);
    assert s == ([58] + s + x)[1..1 + |s|] && t == ([58] + t + y)[1..1 + |t|];
    assert x == ([58] + s + x)[1 + |s|..] && y == ([58] + t + y)[1 + |t|..];
  }

  /** Unique decodability: rows of any lengths with the same key are the same row. */
  lemma {:induction false} KeyInjective(tx: int -> Bytes, row: Row, other: Row)
    requires NumberText(tx) && RowOk(row) && RowOk(other)
    requires EncodeKey(tx, row) == EncodeKey(tx, other)
    ensures row == other
    decreases |row|
  {
    if row != [] && other != [] {
      FirstComponent(tx, row[0], After(tx, row[1..]), other[0], After(tx, other[1..]));
      if row[1..] != [] && other[1..] != [] {
        assert EncodeKey(tx, row[1..]) == After(tx, row[1..])[1..];
        assert EncodeKey(tx, other[1..]) == After(tx, other[1..])[1..];
        KeyInjective(tx, row[1..], other[1..]);
      }
      assert row == [row[0]] + row[1..] && other == [other[0]] + other[1..];
    }
  }

  /** A key starts with the text of p and a separator exactly when it is longer and
      its leading components are p. */
  lemma {:induction false} PrefixExact(tx: int -> Bytes, p: Row, row: Row)
    requires NumberText(tx) && RowOk(p) && RowOk(row) && p != []
    ensures EncodeKey(tx, p) + [SEP] <= EncodeKey(tx, row) <==> p < row
    decreases |p|
  {
    if EncodeKey(tx, p) + [SEP] <= EncodeKey(tx, row) { PrefixSplits(tx, p, row); }
    if p < row { PrefixShows(tx, p, row); }
  }

  lemma {:induction false} PrefixSplits(tx: int -> Bytes, p: Row, row: Row)
    requires NumberText(tx) && RowOk(p) && RowOk(row) && p != []
    requires EncodeKey(tx, p) + [SEP] <= EncodeKey(tx, row)
    ensures p < row
    decreases |p|
  {
    hide EncodeValue, EncodeKey, After;
    var k := EncodeKey(tx, row);
    KeyHead(tx, p);
    KeyHead(tx, row);
    var more := k[|EncodeKey(tx, p)|..];
    assert k == EncodeKey(tx, p) + more && more[0] == SEP;
    var rest := After(tx, p[1..]) + more;
    assert k == EncodeValue(tx, p[0]) + rest;
    AfterStarts(tx, p[1..], more);
    FirstComponent(tx, p[0], rest, row[0], After(tx, row[1..]));
    assert p == [p[0]] + p[1..] && row == [row[0]] + row[1..];
    if p[1..] != [] {
      AfterExtends(tx, p[1..], more, row[1..]);
      PrefixSplits(tx, p[1..], row[1..]);
    }
  }

  lemma KeyHead(tx: int -> Bytes, row: Row)
    ensures row == [] ==> EncodeKey(tx, row) == []
    ensures row != [] ==> EncodeKey(tx, row) == EncodeValue(tx, row[0]) + After(tx, row[1..])
  {
    hide EncodeValue;
  }

  lemma AfterStarts(tx: int -> Bytes, row: Row, more: Bytes)
    requires more != [] && more[0] == SEP
    ensures (After(tx, row) + more)[0] == SEP
    ensures row == [] ==> After(tx, row) == []
  {
    hide EncodeKey;
  }

  lemma AfterExtends(tx: int -> Bytes, p: Row, more: Bytes, row: Row)
    requires p != [] && After(tx, p) + more == After(tx, row) && more != [] && more[0] == SEP
    ensures row != [] && EncodeKey(tx, p) + [SEP] <= EncodeKey(tx, row)
  {
    hide EncodeKey;
    assert After(tx, p) == [SEP] + EncodeKey(tx, p);
    assert EncodeKey(tx, row) == (After(tx, p) + more)[1..] == EncodeKey(tx, p) + more;
    assert more == [SEP] + more[1..];
  }

  lemma {:induction false} PrefixShows(tx: int -> Bytes, p: Row, row: Row)
    requires p != [] && p < row
    ensures EncodeKey(tx, p) + [SEP] <= EncodeKey(tx, row)
    decreases |p|
  {
    var e := EncodeValue(tx, p[0]);
    assert row[0] == p[0];
    if p[1..] != [] {
      PrefixShows(tx, p[1..], row[1..]);
      var a, b := EncodeKey(tx, p[1..]), EncodeKey(tx, row[1..]);
      assert EncodeKey(tx, p) + [SEP] == e + ([SEP] + (a + [SEP]));
      assert EncodeKey(tx, row) == e + ([SEP] + b);
    } else {
      assert EncodeKey(tx, row) == e + ([SEP] + EncodeKey(tx, row[1..]));
    }
  }

  // ---------------------------------------------------------------- the order

  function Rank(v: KeyVal): nat
  {
    match v
    case Missing => 0
    case Number(_) => 1
    case Text(_) => 2
    case Flag(_) => 3
    case Other(_) => 4
  }

  function CompareInts(a: int, b: int): int { if a < b then -1 else if a > b then 1 else 0 }

  function CompareTexts(a: Bytes, b: Bytes): int { if Less(a, b) then -1 else if Less(b, a) then 1 else 0 }

  /** Bands by type; inside a band by value, where the band has an order at all. */
  function Compare(a: KeyVal, b: KeyVal): int
  {
    if Rank(a) != Rank(b) then CompareInts(Rank(a), Rank(b)) else
      match a
      case Missing => 0
      case Number(n) => CompareInts(n, b.n)
      case Text(s) => CompareTexts(s, b.s)
      case Flag(x) => if x == b.b then 0 else if !x then -1 else 1
      case Other(_) => 0
  }

  lemma CompareTextsLaws(a: Bytes, b: Bytes, c: Bytes)
    ensures CompareTexts(a, b) == -CompareTexts(b, a)
    ensures CompareTexts(a, b) == 0 <==> a == b
    ensures CompareTexts(a, b) <= 0 && CompareTexts(b, c) <= 0 ==> CompareTexts(a, c) <= 0
  {
    LessIrreflexive(a);
    if Less(a, b) && Less(b, a) { LessTransitive(a, b, a); }
    if a != b { LessConnected(a, b); }
    if a != c { LessConnected(a, c); }
    if b != c { LessConnected(b, c); }
    if Less(a, b) && Less(b, c) { LessTransitive(a, b, c); }
    if Less(c, a) && Less(a, b) { LessTransitive(c, a, b); }
    if Less(c, b) && Less(b, c) { LessTransitive(c, b, c); LessIrreflexive(c); }
    if Less(c, a) && Less(a, c) { LessTransitive(c, a, c); LessIrreflexive(c); }
  }

  /** A total preorder whose ties are the pairs of equal rank the code leaves unordered. */
  lemma CompareLaws(a: KeyVal, b: KeyVal, c: KeyVal)
    ensures Compare(a, b) == -Compare(b, a)
    ensures Compare(a, b) <= 0 && Compare(b, c) <= 0 ==> Compare(a, c) <= 0
    ensures Compare(a, b) == 0 <==> a == b || (a.Other? && b.Other?)
  {
    hide Less;
    if a.Text? && b.Text? { CompareTextsLaws(a.s, b.s, if c.Text? then c.s else a.s); }
  }

  datatype OrdEntry = OrdEntry(val: KeyVal, key: Bytes)

  predicate OrdLess(a: OrdEntry, b: OrdEntry)
  {
    var c := Compare(a.val, b.val);
    if c != 0 then c < 0 else Less(a.key, b.key)
  }

  lemma OrdLessLaws(a: OrdEntry, b: OrdEntry, c: OrdEntry)
    ensures !OrdLess(a, a)
    ensures OrdLess(a, b) && OrdLess(b, c) ==> OrdLess(a, c)
    ensures a.key != b.key ==> OrdLess(a, b) || OrdLess(b, a)
    ensures OrdLess(a, b) ==> !OrdLess(b, a)
  {
    hide Less, Compare;
    CompareLaws(a.val, a.val, a.val);
    CompareLaws(a.val, b.val, c.val);
    CompareLaws(b.val, c.val, a.val);
    CompareLaws(c.val, a.val, b.val);
    LessIrreflexive(a.key);
    if a.key != b.key { LessConnected(a.key, b.key); }
    if Less(a.key, b.key) && Less(b.key, c.key) { LessTransitive(a.key, b.key, c.key); }
    if Less(a.key, b.key) && Less(b.key, a.key) { LessTransitive(a.key, b.key, a.key); }
  }
}
