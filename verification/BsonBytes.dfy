/** The bytes the BSON encoder writes, production by production (the BSON specification,
    version 1.1), and what a decoder may rely on. */
module BsonBytes {
  import opened ByteCodec
  import opened Bson

  /** The four bytes of a length or a 32-bit number, least significant first. */
  function Four(n: int): (b: Bytes)
    requires 0 <= n < 0x1_0000_0000
    ensures |b| == 4
  {
    Bytes4(n % 256, n / 256 % 256, n / 0x1_0000 % 256, n / 0x100_0000)
  }

  function Bytes4(a: Byte, b: Byte, c: Byte, d: Byte): Bytes { [a, b, c, d] }

  lemma FourIsLE(n: nat)
    requires n < 0x1_0000_0000
    ensures LE(n, 4) == Four(n)
  {
    LittleEndian(n);
  }

  // ---------------------------------------------------------------- elements

  /** element ::= type byte, key, zero byte, value. */
  lemma ElementBytes(key: Bytes, v: BVal, depth: nat)
    ensures EncElem(key, v, depth).Some? <==> 0 !in key && EncValue(v, depth).Some?
    ensures EncElem(key, v, depth).Some? ==>
              EncElem(key, v, depth).value == [TypeByte(v)] + key + [0] + EncValue(v, depth).value
  {
    assert [TypeOf(v)] + CString(key) == [TypeByte(v)] + key + [0];
  }

  /** The type byte of each production; whole numbers take 32 bits when they fit. */
  function TypeByte(v: BVal): Byte
  {
    match v
    case Double(_) => 0x01
    case Str(_) => 0x02
    case Doc(_) => 0x03
    case Arr(_) => 0x04
    case Bool(_) => 0x08
    case Null => 0x0A
    case Whole(n) => if -2147483648 <= n <= 2147483647 then 0x10 else 0x12
  }

  /** The values. A negative number is written as its two's complement, and only a
      document goes one level down. */
  lemma ValueBytes(v: BVal, depth: nat)
    ensures v.Null? ==> EncValue(v, depth) == Some([])
    ensures v.Bool? ==> EncValue(v, depth) == Some(if v.b then [1] else [0])
    ensures v.Double? ==> EncValue(v, depth) == Some(v.bits)
    ensures v.Whole? && 0 <= v.n <= 2147483647 ==> EncValue(v, depth) == Some(Four(v.n))
    ensures v.Whole? && -2147483648 <= v.n < 0 ==> EncValue(v, depth) == Some(Four(v.n + 0x1_0000_0000))
    ensures v.Str? && |v.s| < 0xffff_ffff ==> EncValue(v, depth) == Some(Four(|v.s| + 1) + v.s + [0])
    ensures v.Doc? && !Reserved(v.fields) ==> EncValue(v, depth) == EncDoc(v, v.fields, depth + 1)
    ensures v.Arr? ==> EncValue(v, depth) == EncArray(v, v.items, depth)
  {
    hide LE;
    if v.Whole? && 0 <= v.n <= 2147483647 { FourIsLE(v.n); }
    if v.Whole? && -2147483648 <= v.n < 0 { FourIsLE(v.n + 0x1_0000_0000); }
    if v.Str? && |v.s| < 0xffff_ffff { FourIsLE(|v.s| + 1); }
  }

  lemma AsText(k: Bytes, s: string)
    requires forall i | 0 <= i < |s| :: s[i] as int < 128
    ensures Text(k) == s <==> k == Ascii(s)
  {
    if Text(k) == s {
      forall i | 0 <= i < |k|
        ensures k[i] == Ascii(s)[i]
      {
        assert Text(k)[i] == s[i];
      }
    }
  }

  /** The nested documents that stand for other types: one of two fields, code with its
      scope, and those of one field with a reserved key. */
  lemma ReservedDocuments(fs: seq<Field>)
    ensures |fs| == 2 ==> (Reserved(fs) <==> fs[0].key == Ascii("$code") && fs[1].key == Ascii("$scope"))
    ensures |fs| == 1 && fs[0].key == Ascii("$date") ==> Reserved(fs)
    ensures |fs| == 1 && (fs[0].key == [] || fs[0].key[0] != '$' as int) ==> !Reserved(fs)
    ensures |fs| == 0 || |fs| > 2 ==> !Reserved(fs)
  {
    if |fs| == 2 {
      AsText(fs[0].key, "$code");
      AsText(fs[1].key, "$scope");
    }
    if |fs| == 1 {
      AsText(fs[0].key, "$date");
      if fs[0].key != [] && ReservedKey(fs[0].key) { assert Text(fs[0].key)[0] == '$'; }
    }
  }

  /** A number that needs 64 bits: the low word, then the high one. */
  lemma LongBytes(n: int, depth: nat)
    requires n < -2147483648 || 2147483647 < n
    requires -0x8000_0000_0000_0000 <= n < 0x8000_0000_0000_0000
    ensures var m := if n < 0 then n + 0x1_0000_0000_0000_0000 else n;
            0 <= m / 0x1_0000_0000 < 0x1_0000_0000
            && EncValue(Whole(n), depth) == Some(Four(m % 0x1_0000_0000) + Four(m / 0x1_0000_0000))
  {
    var m := if n < 0 then n + 0x1_0000_0000_0000_0000 else n;
    hide LE, Four;
    Complement(n);
    TwoWords(m);
    FourIsLE(m % 0x1_0000_0000);
    FourIsLE(m / 0x1_0000_0000);
    assert EncValue(Whole(n), depth) == Some(LE(m, 8));
  }

  lemma Complement(n: int)
    requires -0x8000_0000_0000_0000 <= n < 0x8000_0000_0000_0000
    ensures var m := if n < 0 then n + TWO64 else n; 0 <= m < TWO64 && n % TWO64 == m
    ensures var m := if n < 0 then n + TWO64 else n;
            0 <= m / 0x1_0000_0000 < 0x1_0000_0000 && 0 <= m % 0x1_0000_0000 < 0x1_0000_0000
  {
    var m := if n < 0 then n + TWO64 else n;
    assert n == (if n < 0 then -1 else 0) * TWO64 + m;
  }

  lemma TwoWords(m: nat)
    requires m < 0x1_0000_0000_0000_0000
    ensures LE(m, 8) == LE(m % 0x1_0000_0000, 4) + LE(m / 0x1_0000_0000, 4)
  {
    SpanOfWords();
    LEJoins(m % 0x1_0000_0000, m / 0x1_0000_0000, 4, 4);
  }

  lemma {:induction false} LEJoins(lo: nat, hi: nat, w: nat, u: nat)
    requires lo < Span(w)
    ensures LE(lo + Span(w) * hi, w + u) == LE(lo, w) + LE(hi, u)
  {
    if w > 0 {
      var n := lo + Span(w) * hi;
      assert Span(w) * hi == 256 * (Span(w - 1) * hi);
      assert n % 256 == lo % 256 && n / 256 == lo / 256 + Span(w - 1) * hi;
      LEJoins(lo / 256, hi, w - 1, u);
    }
  }

  // ---------------------------------------------------------------- documents and arrays

  /** document ::= total length, elements, zero byte; refused beyond depth 100 and 2 GiB. */
  lemma DocumentBytes(up: BVal, fs: seq<Field>, depth: nat)
    requires forall i | 0 <= i < |fs| :: fs[i].value < up
    ensures EncDoc(up, fs, depth).Some? <==>
            depth <= 100 && EncFields(up, fs, depth).Some? && |EncFields(up, fs, depth).value| + 5 <= 2147483647
    ensures EncDoc(up, fs, depth).Some? ==>
              var b := EncDoc(up, fs, depth).value;
              |b| <= 2147483647 && b == Four(|b|) + EncFields(up, fs, depth).value + [0]
  {
    hide LE, EncFields;
    if EncDoc(up, fs, depth).Some? { FourIsLE(|EncFields(up, fs, depth).value| + 5); }
  }

  /** The elements are those of the fields in their order. */
  lemma FieldBytes(up: BVal, fs: seq<Field>, f: Field, depth: nat)
    requires f.value < up && forall i | 0 <= i < |fs| :: fs[i].value < up
    ensures EncFields(up, [], depth) == Some([])
    ensures forall i | 0 <= i < |fs + [f]| :: (fs + [f])[i].value < up
    ensures var all := EncFields(up, fs + [f], depth);
            && (all.Some? <==> EncFields(up, fs, depth).Some? && EncElem(f.key, f.value, depth).Some?)
            && (all.Some? ==> all.value == EncFields(up, fs, depth).value + EncElem(f.key, f.value, depth).value)
  {
    assert (fs + [f])[..|fs|] == fs;
  }

  /** array ::= a document whose keys are the positions in decimal; it is written at its
      parent's depth, and a length beyond 32 bits is not refused. */
  lemma ArrayBytes(up: BVal, items: seq<BVal>, depth: nat)
    requires forall i | 0 <= i < |items| :: items[i] < up
    ensures EncArray(up, items, depth).Some? <==> depth <= 100 && EncItems(up, items, depth + 1).Some?
    ensures EncArray(up, items, depth).Some? ==>
              var b := EncArray(up, items, depth).value;
              |b| < 0x1_0000_0000 ==> b == Four(|b|) + EncItems(up, items, depth + 1).value + [0]
  {
    hide LE, EncItems;
    if EncArray(up, items, depth).Some? && |EncArray(up, items, depth).value| < 0x1_0000_0000 {
      FourIsLE(|EncItems(up, items, depth + 1).value| + 5);
    }
  }

  lemma ItemBytes(up: BVal, items: seq<BVal>, v: BVal, depth: nat)
    requires v < up && forall i | 0 <= i < |items| :: items[i] < up
    ensures EncItems(up, [], depth) == Some([])
    ensures forall i | 0 <= i < |items + [v]| :: (items + [v])[i] < up
    ensures var all := EncItems(up, items + [v], depth);
            && (all.Some? <==> EncItems(up, items, depth).Some? && EncElem(Digits(|items|), v, depth).Some?)
            && (all.Some? ==>
                  all.value == EncItems(up, items, depth).value + EncElem(Digits(|items|), v, depth).value)
  {
    assert (items + [v])[..|items|] == items;
  }

  /** What a decimal text spells. */
  function Spelled(d: Bytes): int
  {
    if d == [] then 0 else 10 * Spelled(d[..|d| - 1]) + (d[|d| - 1] - '0' as int)
  }

  /** Positions are spelled in decimal digits, the first one not zero but for zero
      itself. */
  lemma {:induction false} DecimalDigits(n: nat)
    ensures Spelled(Digits(n)) == n
    ensures Digits(n) != [] && (n > 0 ==> Digits(n)[0] != '0' as int)
    ensures forall i | 0 <= i < |Digits(n)| :: '0' as int <= Digits(n)[i] <= '9' as int
  {
    if n >= 10 {
      DecimalDigits(n / 10);
      var d := Digits(n);
      assert d[..|d| - 1] == Digits(n / 10);
    } else {
      assert Digits(n)[..0] == [];
    }
  }

  // ---------------------------------------------------------------- what the decoder accepts

  lemma ReadsLength(b: Bytes, pos: nat, n: int, p: nat)
    requires ReadInt32(b, pos) == Got(n, p) && n >= 0
    ensures p == pos + 4 <= |b| && n == DoubleWord(b[pos], b[pos + 1], b[pos + 2], b[pos + 3])
  {
    hide UnLE;
    UnLittleEndian(b[pos..pos + 4]);
  }

  /** Nothing decodes unless it is as long as it says and ends in a zero byte. */
  lemma DecodesWhole(b: Bytes)
    requires Decode(b).Some?
    ensures |b| >= 5 && DoubleWord(b[0], b[1], b[2], b[3]) == |b| && b[|b| - 1] == 0
  {
    hide UnLE, ReadFields;
    var n := ReadInt32(b, 0);
    ReadsLength(b, 0, n.value, n.pos);
    FieldsEnd(b, n.pos, 0, []);
  }

  lemma {:induction false} FieldsEnd(b: Bytes, pos: nat, depth: nat, acc: seq<Field>)
    requires pos <= |b| && ReadFields(b, pos, depth, acc).Got?
    ensures pos < ReadFields(b, pos, depth, acc).pos <= |b| && b[ReadFields(b, pos, depth, acc).pos - 1] == 0
    decreases |b| - pos
  {
    hide ReadValue, ReadCString;
    if b[pos] != 0 {
      var key := ReadCString(b, pos + 1);
      var v := ReadValue(b, key.pos, b[pos], depth);
      FieldsEnd(b, v.pos, depth, SetField(acc, key.value, v.value));
    }
  }

  /** A key that comes twice keeps its last value. */
  lemma {:induction false} LastValueWins(fs: seq<Field>, key: Bytes, v: BVal, w: BVal)
    ensures SetField(SetField(fs, key, v), key, w) == SetField(fs, key, w)
  {
    LessIrreflexive(key);
    if fs != [] && !Less(key, fs[0].key) && key != fs[0].key {
      LastValueWins(fs[1..], key, v, w);
      assert ([fs[0]] + SetField(fs[1..], key, v))[1..] == SetField(fs[1..], key, v);
    }
  }

  /** Two retired types are read as null and as a string; any type byte but these ten
      is refused. */
  lemma OtherTypes(b: Bytes, pos: nat, t: Byte, depth: nat)
    requires pos <= |b|
    ensures t == 0x06 ==> ReadValue(b, pos, t, depth) == Got(Null, pos)
    ensures t == 0x0E ==> ReadValue(b, pos, t, depth) == ReadValue(b, pos, 0x02, depth)
    ensures t !in {0x01, 0x02, 0x03, 0x04, 0x06, 0x08, 0x0A, 0x0E, 0x10, 0x12} ==> ReadValue(b, pos, t, depth) == Fail
  {
    hide ReadDoc, ReadArray;
  }
}
