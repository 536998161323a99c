/** What the orders are that indexes, ranges and answers go by. */
module OrderLaws {
  import opened ByteCodec
  import opened Values
  import opened SortedLists
  import opened Filters
  import opened Paths
  import opened IndexKeys
  import opened IndexRows
  import opened IndexSpec
  import opened Csr
  import opened PlanMeaning
  import opened Seeks
  import opened Finder
  import opened FilterLaws

  /** Index values by type: nothing, then numbers, strings, booleans and the rest; within
      a type numbers by value, strings byte by byte, and false before true. */
  lemma ValueOrder(m: int, n: int, s: Bytes, b: bool, o: Bytes, p: Bytes, x: Byte, u: Bytes, y: Byte, v: Bytes)
    ensures Compare(Missing, Number(n)) < 0 && Compare(Number(n), Text(s)) < 0
    ensures Compare(Text(s), Flag(b)) < 0 && Compare(Flag(b), Other(o)) < 0
    ensures Compare(Missing, Other(o)) < 0 && Compare(Number(n), Other(o)) < 0
    ensures m < n ==> Compare(Number(m), Number(n)) < 0
    ensures x < y ==> Compare(Text(p + [x] + u), Text(p + [y] + v)) < 0
    ensures Compare(Text(p), Text(p + [x] + u)) < 0
    ensures Compare(Flag(false), Flag(true)) < 0
  {
    hide Less;
    FirstDifference(p, x, u, y, v);
  }

  /** A range over numbers holds the numbers between its bounds, and nothing else. */
  lemma NumberRange(v: KeyVal, lo: int, hi: int, hasLo: bool, hasHi: bool, loIncl: bool, hiIncl: bool)
    requires hasLo || hasHi
    ensures InRange(v, RangeBound(Number(lo), Number(hi), hasLo, hasHi, loIncl, hiIncl)) <==>
            && v.Number?
            && (hasLo ==> lo < v.n || (loIncl && lo == v.n))
            && (hasHi ==> v.n < hi || (hiIncl && v.n == hi))
  {
  }

  /** A range over strings goes by the byte order. */
  lemma TextRange(v: KeyVal, lo: Bytes, hi: Bytes, hasLo: bool, hasHi: bool, loIncl: bool, hiIncl: bool)
    requires hasLo || hasHi
    ensures InRange(v, RangeBound(Text(lo), Text(hi), hasLo, hasHi, loIncl, hiIncl)) <==>
            && v.Text?
            && (hasLo ==> Less(lo, v.s) || (loIncl && lo == v.s))
            && (hasHi ==> Less(v.s, hi) || (hiIncl && v.s == hi))
  {
    hide Less;
    if v.Text? {
      CompareTextsLaws(v.s, lo, hi);
      CompareTextsLaws(v.s, hi, lo);
      LessIrreflexive(lo);
      LessIrreflexive(hi);
    }
  }

  /** A string range selects by the first difference from its bound. */
  lemma TextsInRange(p: Bytes, x: Byte, s: Bytes, y: Byte, t: Bytes, incl: bool)
    requires x < y
    ensures InRange(Text(p + [y] + t), RangeBound(Text(p + [x] + s), Missing, true, false, incl, false))
    ensures !InRange(Text(p + [x] + s), RangeBound(Text(p + [y] + t), Missing, true, false, incl, false))
    ensures InRange(Text(p + [x] + s), RangeBound(Missing, Text(p + [y] + t), false, true, false, incl))
    ensures !InRange(Text(p + [y] + t), RangeBound(Missing, Text(p + [x] + s), false, true, false, incl))
  {
    hide Less;
    FirstDifference(p, x, s, y, t);
  }

  /** The same of whole queries: $gt and $lt on a string field. */
  lemma TextQueries(docs: map<Bytes, Doc>, f: Bytes, id: Bytes, p: Bytes, x: Byte, s: Bytes, y: Byte, t: Bytes)
    requires Plain(f) && id in docs && f in docs[id] && x < y
    ensures docs[id][f] == Str(p + [y] + t) ==>
              && id in Matching(docs, Op(f, "$gt", Str(p + [x] + s)))
              && id !in Matching(docs, Op(f, "$lt", Str(p + [x] + s)))
    ensures docs[id][f] == Str(p + [x] + s) ==>
              && id in Matching(docs, Op(f, "$lt", Str(p + [y] + t)))
              && id !in Matching(docs, Op(f, "$gt", Str(p + [y] + t)))
  {
    hide Less, Matches;
    FirstDifference(p, x, s, y, t);
    ComparisonLaws(docs, f, Str(p + [x] + s));
    ComparisonLaws(docs, f, Str(p + [y] + t));
  }

  /** Answers in id order go up byte by byte and hold each id once. */
  lemma IdOrder(ids: set<Bytes>, i: nat, j: nat, p: Bytes, x: Byte, s: Bytes, y: Byte, t: Bytes)
    requires i < |SortedIds(ids)| && j < |SortedIds(ids)| && x < y
    requires SortedIds(ids)[i] == p + [x] + s && SortedIds(ids)[j] == p + [y] + t
    ensures i < j
    ensures forall id :: id in ids <==> id in SortedIds(ids)
  {
    hide Less;
    var a, b := p + [x] + s, p + [y] + t;
    FirstDifference(p, x, s, y, t);
    assert i == j ==> a == b;
    assert i != j by { LessIrreflexive(a); }
  }

  /** An answer in index order goes up in the field: numbers and strings do not come down,
      and a document without the field does not come after one with a number or a
      string. */
  lemma RisingMeans(tx: Texts, docs: map<Bytes, Doc>, f: Bytes, ids: seq<Bytes>, i: nat, j: nat)
    requires Rising(tx, docs, f, ids) && Plain(f) && i < j < |ids|
    ensures ids[i] in docs && ids[j] in docs
    ensures f in docs[ids[i]] && f in docs[ids[j]] ==> !Before(docs[ids[j]][f], docs[ids[i]][f])
    ensures f in docs[ids[i]] && f !in docs[ids[j]] ==> !docs[ids[i]][f].Num? && !docs[ids[i]][f].Str?
  {
    hide Less;
    assert Compare(FieldVal(tx, docs[ids[i]], f), FieldVal(tx, docs[ids[j]], f)) <= 0;
    assert DOT !in f;
    if f in docs[ids[i]] && f in docs[ids[j]] && docs[ids[i]][f].Str? && docs[ids[j]][f].Str? {
      CompareTextsLaws(docs[ids[i]][f].s, docs[ids[j]][f].s, docs[ids[i]][f].s);
    }
  }
}
