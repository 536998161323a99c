/** The BSON encoding of documents (the document, e_list and element productions of
    the BSON specification, version 1.1): what the encoder writes, what the decoder
    reads, and exactly when the two are inverse. */
module Bson {
  import opened ByteCodec

  const T_DOUBLE: Byte := 0x01
  const T_STRING: Byte := 0x02
  const T_DOCUMENT: Byte := 0x03
  const T_ARRAY: Byte := 0x04
  const T_UNDEFINED: Byte := 0x06
  const T_BOOL: Byte := 0x08
  const T_NULL: Byte := 0x0A
  const T_SYMBOL: Byte := 0x0E
  const T_INT32: Byte := 0x10
  const T_INT64: Byte := 0x12

  const MAX_DEPTH: nat := 100
  const MAX_INT32: int := 0x7FFF_FFFF
  const MIN_INT32: int := -0x8000_0000
  const MAX_EXACT: int := 0x20_0000_0000_0000 // 2 to the 53rd
  const TWO32: int := 0x1_0000_0000
  const TWO64: int := 0x1_0000_0000_0000_0000

  /** A value a document can hold. Numbers are finite 64-bit floats: a whole number
      up to 2^53 by its value, any other by its bit pattern. A nested document is
      its fields in ascending key order, which is a map in canonical form. */
  datatype BVal =
    | Null
    | Bool(b: bool)
    | Whole(n: int)
    | Double(bits: Bytes)
    | Str(s: Bytes)
    | Arr(items: seq<BVal>)
    | Doc(fields: seq<Field>)

  datatype Field = Field(key: Bytes, value: BVal)

  // ---------------------------------------------------------------- canonical documents

  /** doc[key] = v on a map kept in ascending key order. */
  function SetField(fs: seq<Field>, key: Bytes, v: BVal): seq<Field>
  {
    if fs == [] || Less(key, fs[0].key) then [Field(key, v)] + fs
    else if key == fs[0].key then [Field(key, v)] + fs[1..]
    else [fs[0]] + SetField(fs[1..], key, v)
  }

  predicate AscendingKeys(fs: seq<Field>)
  {
    forall i, j | 0 <= i < j < |fs| :: Less(fs[i].key, fs[j].key)
  }

  lemma {:induction false} SetFieldAppends(fs: seq<Field>, f: Field)
    requires AscendingKeys(fs + [f])
    ensures SetField(fs, f.key, f.value) == fs + [f]
  {
    if fs != [] {
      var all := fs + [f];
      assert Less(all[0].key, all[|fs|].key);
      if Less(f.key, fs[0].key) { LessTransitive(f.key, fs[0].key, f.key); }
      LessIrreflexive(f.key);
      assert all[1..] == fs[1..] + [f];
      SetFieldAppends(fs[1..], f);
    }
  }

  // ---------------------------------------------------------------- encoder

  function CString(s: Bytes): Bytes { s + [0] }

  /** A length field: unchecked, so it wraps at 32 bits. */
  function LenField(n: nat): (b: Bytes)
    ensures |b| == 4
  {
    LE(n % TWO32, 4)
  }

  function NumberType(n: int): Byte
  {
    if MIN_INT32 <= n <= MAX_INT32 then T_INT32 else T_INT64
  }

  function TypeOf(v: BVal): Byte
  {
    match v
    case Null => T_NULL
    case Bool(_) => T_BOOL
    case Whole(n) => NumberType(n)
    case Double(_) => T_DOUBLE
    case Str(_) => T_STRING
    case Arr(_) => T_ARRAY
    case Doc(_) => T_DOCUMENT
  }

  function Text(k: Bytes): string
  {
    seq(|k|, i requires 0 <= i < |k| => k[i] as char)
  }

  /** Single-field documents with these keys, and the code-with-scope pair, stand for
      other BSON types when nested; their encodings are not part of this model. */
  predicate ReservedKey(k: Bytes)
  {
    Text(k) in {"$oid", "$minKey", "$maxKey", "$numberInt", "$numberLong", "$numberDouble", "$numberDecimal",
                "$date", "$code", "$binary", "$regularExpression", "$timestamp", "$dbPointer"}
  }

  predicate Reserved(fs: seq<Field>)
  {
    || (|fs| == 1 && ReservedKey(fs[0].key))
    || (|fs| == 2 && Text(fs[0].key) == "$code" && Text(fs[1].key) == "$scope")
  }

  /** The bytes after the type byte and the key; None is an encoding error. */
  function EncValue(v: BVal, depth: nat): Option<Bytes>
    decreases v, 0
  {
    match v
    case Null => Some([])
    case Bool(b) => Some([if b then 1 else 0])
    case Whole(n) =>
      Some(if NumberType(n) == T_INT32 then LE(n % TWO32, 4) else LE(n % TWO64, 8))
    case Double(bits) => Some(bits)
    case Str(s) => Some(LenField(|s| + 1) + s + [0])
    case Arr(items) => EncArray(v, items, depth)
    case Doc(fs) => if Reserved(fs) then None else EncDoc(v, fs, depth + 1)
  }

  function EncElem(key: Bytes, v: BVal, depth: nat): Option<Bytes>
    decreases v, 1
  {
    if 0 in key then None else
      match EncValue(v, depth)
      case None => None
      case Some(b) => Some([TypeOf(v)] + CString(key) + b)
  }

  /** The elements of a document so far, in field order. up bounds the recursion. */
  function EncFields(up: BVal, fs: seq<Field>, depth: nat): Option<Bytes>
    requires forall i | 0 <= i < |fs| :: fs[i].value < up
    decreases up, 0, |fs|
  {
    if fs == [] then Some([]) else
      var f := fs[|fs| - 1];
      match EncFields(up, fs[..|fs| - 1], depth)
      case None => None
      case Some(front) =>
        match EncElem(f.key, f.value, depth)
        case None => None
        case Some(e) => Some(front + e)
  }

  function EncItems(up: BVal, items: seq<BVal>, depth: nat): Option<Bytes>
    requires forall i | 0 <= i < |items| :: items[i] < up
    decreases up, 0, |items|
  {
    if items == [] then Some([]) else
      match EncItems(up, items[..|items| - 1], depth)
      case None => None
      case Some(front) =>
        match EncElem(Digits(|items| - 1), items[|items| - 1], depth)
        case None => None
        case Some(e) => Some(front + e)
  }

  function EncDoc(up: BVal, fs: seq<Field>, depth: nat): Option<Bytes>
    requires forall i | 0 <= i < |fs| :: fs[i].value < up
    decreases up, 0, |fs| + 1
  {
    if depth > MAX_DEPTH then None else
      match EncFields(up, fs, depth)
      case None => None
      case Some(body) =>
        if |body| + 5 > MAX_INT32 then None else Some(LenField(|body| + 5) + body + [0])
  }

  /** An array is written at its parent's depth, and its length is not checked. */
  function EncArray(up: BVal, items: seq<BVal>, depth: nat): Option<Bytes>
    requires forall i | 0 <= i < |items| :: items[i] < up
    decreases up, 0, |items| + 1
  {
    if depth > MAX_DEPTH then None else
      match EncItems(up, items, depth + 1)
      case None => None
      case Some(body) => Some(LenField(|body| + 5) + body + [0])
  }

  function Encode(fs: seq<Field>): Option<Bytes> { EncDoc(Doc(fs), fs, 0) }

  // ---------------------------------------------------------------- decoder

  datatype Read<+T> = Fail | Got(value: T, pos: nat)

  function ReadByte(b: Bytes, pos: nat): (r: Read<Byte>)
    ensures r.Got? ==> pos < r.pos <= |b|
  {
    if pos >= |b| then Fail else Got(b[pos], pos + 1)
  }

  function Signed(n: int, half: int): int { if n >= half then n - 2 * half else n }

  function ReadInt32(b: Bytes, pos: nat): (r: Read<int>)
    ensures r.Got? ==> r.pos == pos + 4 <= |b|
  {
    if pos + 4 > |b| then Fail else Got(Signed(UnLE(b[pos..pos + 4]), 0x8000_0000), pos + 4)
  }

  function ReadInt64(b: Bytes, pos: nat): (r: Read<int>)
    ensures r.Got? ==> r.pos == pos + 8 <= |b|
  {
    if pos + 8 > |b| then Fail else Got(Signed(UnLE(b[pos..pos + 8]), 0x8000_0000_0000_0000), pos + 8)
  }

  function ReadCString(b: Bytes, pos: nat): (r: Read<Bytes>)
    ensures r.Got? ==> pos < r.pos <= |b|
    decreases |b| - pos
  {
    if pos >= |b| then Fail
    else if b[pos] == 0 then Got([], pos + 1)
    else match ReadCString(b, pos + 1)
         case Fail => Fail
         case Got(s, p) => Got([b[pos]] + s, p)
  }

  function ReadString(b: Bytes, pos: nat): (r: Read<Bytes>)
    ensures r.Got? ==> pos < r.pos <= |b|
  {
    match ReadInt32(b, pos)
    case Fail => Fail
    case Got(n, p) => if n < 1 || p + n > |b| then Fail else Got(b[p..p + n - 1], p + n)
  }

  function ReadValue(b: Bytes, pos: nat, t: Byte, depth: nat): (r: Read<BVal>)
    requires pos <= |b|
    ensures r.Got? ==> pos <= r.pos <= |b|
    decreases |b| - pos, 2
  {
    if t == T_DOUBLE then
      if pos + 8 > |b| then Fail else Got(Double(b[pos..pos + 8]), pos + 8)
    else if t == T_STRING || t == T_SYMBOL then
      match ReadString(b, pos) case Fail => Fail case Got(s, p) => Got(Str(s), p)
    else if t == T_DOCUMENT then
      match ReadDoc(b, pos, depth + 1) case Fail => Fail case Got(fs, p) => Got(Doc(fs), p)
    else if t == T_ARRAY then
      match ReadArray(b, pos, depth + 1) case Fail => Fail case Got(items, p) => Got(Arr(items), p)
    else if t == T_UNDEFINED || t == T_NULL then Got(Null, pos)
    else if t == T_BOOL then
      match ReadByte(b, pos) case Fail => Fail case Got(x, p) => Got(Bool(x != 0), p)
    else if t == T_INT32 then
      match ReadInt32(b, pos) case Fail => Fail case Got(n, p) => Got(Whole(n), p)
    else if t == T_INT64 then
      match ReadInt64(b, pos)
      case Fail => Fail
      case Got(n, p) => if -MAX_EXACT <= n <= MAX_EXACT then Got(Whole(n), p) else Fail
    else Fail
  }

  /** The elements up to the closing zero byte, added to those already read. */
  function ReadFields(b: Bytes, pos: nat, depth: nat, acc: seq<Field>): (r: Read<seq<Field>>)
    requires pos <= |b|
    ensures r.Got? ==> pos < r.pos <= |b|
    decreases |b| - pos, 0
  {
    match ReadByte(b, pos)
    case Fail => Fail
    case Got(t, p) =>
      if t == 0 then Got(acc, p) else
        match ReadCString(b, p)
        case Fail => Fail
        case Got(key, q) =>
          match ReadValue(b, q, t, depth)
          case Fail => Fail
          case Got(v, s) => ReadFields(b, s, depth, SetField(acc, key, v))
  }

  function ReadItems(b: Bytes, pos: nat, depth: nat, acc: seq<BVal>): (r: Read<seq<BVal>>)
    requires pos <= |b|
    ensures r.Got? ==> pos < r.pos <= |b|
    decreases |b| - pos, 0
  {
    match ReadByte(b, pos)
    case Fail => Fail
    case Got(t, p) =>
      if t == 0 then Got(acc, p) else
        match ReadCString(b, p)
        case Fail => Fail
        case Got(_, q) =>
          match ReadValue(b, q, t, depth)
          case Fail => Fail
          case Got(v, s) => ReadItems(b, s, depth, acc + [v])
  }

  function ReadDoc(b: Bytes, pos: nat, depth: nat): (r: Read<seq<Field>>)
    requires pos <= |b|
    ensures r.Got? ==> pos < r.pos <= |b|
    decreases |b| - pos, 1
  {
    if depth > MAX_DEPTH then Fail else
      match ReadInt32(b, pos)
      case Fail => Fail
      case Got(n, p) =>
        if n < 5 || pos + n > |b| then Fail else
          match ReadFields(b, p, depth, [])
          case Fail => Fail
          case Got(fs, q) => if q != pos + n then Fail else Got(fs, q)
  }

  function ReadArray(b: Bytes, pos: nat, depth: nat): (r: Read<seq<BVal>>)
    requires pos <= |b|
    ensures r.Got? ==> pos < r.pos <= |b|
    decreases |b| - pos, 1
  {
    if depth > MAX_DEPTH then Fail else
      match ReadInt32(b, pos)
      case Fail => Fail
      case Got(n, p) =>
        if n < 5 || pos + n > |b| then Fail else
          match ReadItems(b, p, depth, [])
          case Fail => Fail
          case Got(items, q) => if q != pos + n then Fail else Got(items, q)
  }

  /** Decoding must consume every byte. */
  function Decode(b: Bytes): Option<seq<Field>>
  {
    match ReadDoc(b, 0, 0)
    case Fail => None
    case Got(fs, p) => if p != |b| then None else Some(fs)
  }
}
