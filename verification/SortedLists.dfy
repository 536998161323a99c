/** Duplicate-free ascending lists of strings. */
module SortedLists {
  import opened ByteCodec

  predicate Ascending(s: seq<Bytes>)
  {
    forall i, j | 0 <= i < j < |s| :: Less(s[i], s[j])
  }

  /** r lists the members of s. */
  predicate SortsSet(r: seq<Bytes>, s: set<Bytes>)
  {
    Ascending(r) && (forall y <- s :: y in r) && (forall i | 0 <= i < |r| :: r[i] in s)
  }

  /** An ascending list is determined by its members: no order or repetition is
      left open. */
  lemma {:induction false} AscendingUnique(a: seq<Bytes>, b: seq<Bytes>)
    requires Ascending(a) && Ascending(b) && forall x: Bytes :: x in a <==> x in b
    ensures a == b
  {
    assert b != [] ==> b[0] in b;
    if a != [] {
      assert a[0] in b && b != [];
      assert b[0] in a;
      var i :| 0 <= i < |b| && b[i] == a[0];
      var j :| 0 <= j < |a| && a[j] == b[0];
      if a[0] != b[0] {
        assert Less(b[0], a[0]) && Less(a[0], b[0]);
        LessTransitive(a[0], b[0], a[0]);
        LessIrreflexive(a[0]);
      }
      var x := a[0];
      LessIrreflexive(x);
      forall y: Bytes
        ensures y in a[1..] <==> y in b[1..]
      {
        assert y in a <==> y == x || y in a[1..];
        assert y in b <==> y == x || y in b[1..];
        assert x !in a[1..] && x !in b[1..];
      }
      AscendingUnique(a[1..], b[1..]);
      assert a == [x] + a[1..] && b == [x] + b[1..];
    }
  }

  /** Insert a new string where it belongs. */
  method InsertSorted(s: seq<Bytes>, x: Bytes) returns (r: seq<Bytes>)
    requires Ascending(s) && x !in s
    ensures Ascending(r) && forall y: Bytes :: y in r <==> y == x || y in s
  {
    var i := 0;
    while i < |s| && Less(s[i], x)
      invariant i <= |s| && forall j | 0 <= j < i :: Less(s[j], x)
    {
      i := i + 1;
    }
    if i < |s| {
      LessConnected(s[i], x);
      forall j | i <= j < |s|
        ensures Less(x, s[j])
      {
        if i < j { LessTransitive(x, s[i], s[j]); }
      }
    }
    r := s[..i] + [x] + s[i..];
    assert s == s[..i] + s[i..];
  }

  /** The members of a set in ascending order. */
  method SortedMembers(s: set<Bytes>) returns (r: seq<Bytes>)
    ensures Ascending(r) && SortsSet(r, s)
    ensures forall y: Bytes :: y in r <==> y in s
  {
    r := [];
    var todo := s;
    while todo != {}
      invariant todo <= s && Ascending(r)
      invariant forall y: Bytes :: y in r <==> y in s - todo
      decreases todo
    {
      var x :| x in todo;
      r := InsertSorted(r, x);
      todo := todo - {x};
    }
    assert forall i | 0 <= i < |r| :: r[i] in r;
  }
}
