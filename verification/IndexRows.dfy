/** The rows a document contributes to an index: one value a field, and one row for
    every element where a field holds an array. */
module IndexRows {
  import opened ByteCodec
  import opened Values
  import opened IndexKeys
  import opened Paths

  /** The two formatters the key text relies on. */
  datatype Texts = Texts(num: int -> Bytes, json: Value -> Bytes)

  ghost predicate TextsOk(tx: Texts)
  {
    NumberText(tx.num) && forall v: Value :: SEP !in tx.json(v)
  }

  function ToKeyVal(tx: Texts, v: Value): KeyVal
  {
    match v
    case Null => Missing
    case Bool(b) => Flag(b)
    case Num(n) => Number(n)
    case Str(s) => Text(s)
    case _ => Other(tx.json(v))
  }

  /** What one field contributes: its elements for an array, otherwise one value. */
  function Components(tx: Texts, doc: Doc, field: Bytes): (c: seq<KeyVal>)
    ensures c != []
  {
    match Lookup(doc, field)
    case None => [Missing]
    case Some(v) =>
      if !v.Arr? then [ToKeyVal(tx, v)]
      else if v.items == [] then [Missing]
      else seq(|v.items|, i requires 0 <= i < |v.items| => ToKeyVal(tx, v.items[i]))
  }

  function AppendEach(rows: seq<Row>, c: KeyVal): seq<Row>
  {
    seq(|rows|, i requires 0 <= i < |rows| => rows[i] + [c])
  }

  function Extend(rows: seq<Row>, cs: seq<KeyVal>): seq<Row>
  {
    if cs == [] then [] else Extend(rows, cs[..|cs| - 1]) + AppendEach(rows, cs[|cs| - 1])
  }

  function Rows(tx: Texts, doc: Doc, fields: seq<Bytes>): seq<Row>
  {
    if fields == [] then [[]]
    else Extend(Rows(tx, doc, fields[..|fields| - 1]), Components(tx, doc, fields[|fields| - 1]))
  }

  /** A row picks one component of every field. */
  ghost predicate IsRow(tx: Texts, doc: Doc, fields: seq<Bytes>, row: Row)
  {
    |row| == |fields| && forall i | 0 <= i < |fields| :: row[i] in Components(tx, doc, fields[i])
  }

  lemma {:induction false} ExtendMembers(rows: seq<Row>, cs: seq<KeyVal>, row: Row)
    ensures row in Extend(rows, cs) <==> row != [] && row[..|row| - 1] in rows && row[|row| - 1] in cs
  {
    if cs != [] {
      var last := cs[|cs| - 1];
      ExtendMembers(rows, cs[..|cs| - 1], row);
      assert cs == cs[..|cs| - 1] + [last];
      AppendMembers(rows, last, row);
    }
  }

  lemma AppendMembers(rows: seq<Row>, c: KeyVal, row: Row)
    ensures row in AppendEach(rows, c) <==> row != [] && row[..|row| - 1] in rows && row[|row| - 1] == c
  {
    if row in AppendEach(rows, c) {
      var i :| 0 <= i < |rows| && AppendEach(rows, c)[i] == row;
      assert row == rows[i] + [c] && row[..|row| - 1] == rows[i];
    }
    if row != [] && row[..|row| - 1] in rows && row[|row| - 1] == c {
      var i :| 0 <= i < |rows| && rows[i] == row[..|row| - 1];
      assert AppendEach(rows, c)[i] == row;
    }
  }

  /** The rows are the whole product of the fields' components. */
  lemma {:induction false} RowsAreTheProduct(tx: Texts, doc: Doc, fields: seq<Bytes>, row: Row)
    ensures row in Rows(tx, doc, fields) <==> IsRow(tx, doc, fields, row)
  {
    hide Components;
    if fields != [] {
      var n := |fields| - 1;
      ExtendMembers(Rows(tx, doc, fields[..n]), Components(tx, doc, fields[n]), row);
      if row != [] {
        RowsAreTheProduct(tx, doc, fields[..n], row[..|row| - 1]);
        if |row| == |fields| {
          assert forall i | 0 <= i < n :: row[..n][i] == row[i] && fields[..n][i] == fields[i];
        }
      }
    }
  }

  /** What a field contributes: each element of an array and nothing else, the value
      itself if it is no array, and "missing" for an empty array or no value. */
  lemma ComponentsAre(tx: Texts, doc: Doc, field: Bytes, c: KeyVal)
    ensures c in Components(tx, doc, field) <==>
            match LookupMulti(doc, field)
            case None => c == Missing
            case Some(vals) =>
              match vals[0]
              case Arr(items) => if items == [] then c == Missing else exists v <- items :: c == ToKeyVal(tx, v)
              case v => c == ToKeyVal(tx, v)
  {
    var cs := Components(tx, doc, field);
    match Lookup(doc, field)
    case None =>
    case Some(v) =>
      if v.Arr? && v.items != [] {
        if c in cs {
          var i :| 0 <= i < |cs| && cs[i] == c;
          assert v.items[i] in v.items;
        }
        if exists w <- v.items :: c == ToKeyVal(tx, w) {
          var w :| w in v.items && c == ToKeyVal(tx, w);
          var i :| 0 <= i < |v.items| && v.items[i] == w;
          assert cs[i] == c;
        }
      }
  }

  /** An array field gives one row for every element, and an index finds the document
      under each of them. */
  lemma ElementRows(tx: Texts, doc: Doc, field: Bytes, items: seq<Value>, v: Value)
    requires DOT !in field && field != [] && field in doc && doc[field] == Arr(items) && v in items
    ensures [ToKeyVal(tx, v)] in Rows(tx, doc, [field])
    ensures EncodeKey(tx.num, [ToKeyVal(tx, v)]) in KeySet(tx, doc, [field])
  {
    hide Components, ToKeyVal, EncodeKey, Rows;
    var row := [ToKeyVal(tx, v)];
    ComponentsAre(tx, doc, field, row[0]);
    RowsAreTheProduct(tx, doc, [field], row);
  }

  lemma ComponentsOk(tx: Texts, doc: Doc, field: Bytes)
    requires TextsOk(tx)
    ensures forall c <- Components(tx, doc, field) :: ValOk(c)
  {
  }

  lemma RowsOk(tx: Texts, doc: Doc, fields: seq<Bytes>, row: Row)
    requires TextsOk(tx) && row in Rows(tx, doc, fields)
    ensures |row| == |fields| && RowOk(row)
  {
    hide Components;
    RowsAreTheProduct(tx, doc, fields, row);
    forall i | 0 <= i < |row|
      ensures ValOk(row[i])
    {
      ComponentsOk(tx, doc, fields[i]);
    }
  }

  function RowKeys(tx: Texts, rows: seq<Row>): set<Bytes>
  {
    set row | row in rows :: EncodeKey(tx.num, row)
  }

  /** The distinct keys of a document. */
  function KeySet(tx: Texts, doc: Doc, fields: seq<Bytes>): set<Bytes>
  {
    RowKeys(tx, Rows(tx, doc, fields))
  }

  method ExtractRows(tx: Texts, doc: Doc, fields: seq<Bytes>) returns (rows: seq<Row>)
    ensures rows == Rows(tx, doc, fields)
  {
    hide Components;
    rows := [[]];
    for f := 0 to |fields|
      invariant rows == Rows(tx, doc, fields[..f])
    {
      var cs := Components(tx, doc, fields[f]);
      var next: seq<Row> := [];
      for i := 0 to |cs|
        invariant next == Extend(rows, cs[..i])
      {
        for j := 0 to |rows|
          invariant next == Extend(rows, cs[..i]) + AppendEach(rows, cs[i])[..j]
        {
          next := next + [rows[j] + [cs[i]]];
        }
        assert cs[..i + 1][..i] == cs[..i] && cs[..i + 1][i] == cs[i];
        assert AppendEach(rows, cs[i])[..|rows|] == AppendEach(rows, cs[i]);
      }
      assert cs[..|cs|] == cs;
      assert fields[..f + 1][..f] == fields[..f] && fields[..f + 1][f] == fields[f];
      rows := next;
    }
    assert fields[..|fields|] == fields;
  }
}
