/** The ordered side of an index: a list of distinct keys, sorted when it is clean,
    kept sorted by binary-search insertion and removal. */
module OrdList {
  import opened ByteCodec
  import opened IndexKeys

  predicate Sorted(s: seq<OrdEntry>)
  {
    forall i, j | 0 <= i < j < |s| :: OrdLess(s[i], s[j])
  }

  predicate DistinctKeys(s: seq<OrdEntry>)
  {
    forall i, j | 0 <= i < j < |s| :: s[i].key != s[j].key
  }

  function KeysOf(s: seq<OrdEntry>): set<Bytes>
  {
    set i | 0 <= i < |s| :: s[i].key
  }

  /** The first position from 0 to n where f turns true. */
  method Search(n: nat, f: nat --> bool) returns (r: nat)
    requires forall i | 0 <= i < n :: f.requires(i)
    requires forall i, j | 0 <= i < j < n :: f(i) ==> f(j)
    ensures r <= n
    ensures forall i | 0 <= i < r :: !f(i)
    ensures forall i | r <= i < n :: f(i)
  {
    var hi := n;
    r := 0;
    while r < hi
      invariant r <= hi <= n
      invariant forall i | 0 <= i < r :: !f(i)
      invariant forall i | hi <= i < n :: f(i)
    {
      var mid := (r + hi) / 2;
      if !f(mid) { r := mid + 1; } else { hi := mid; }
    }
  }

  // ---------------------------------------------------------------- insert and remove

  function InsertAt(s: seq<OrdEntry>, i: nat, e: OrdEntry): (r: seq<OrdEntry>)
    requires i <= |s|
    ensures |r| == |s| + 1
  {
    s[..i] + [e] + s[i..]
  }

  function RemoveAt(s: seq<OrdEntry>, i: nat): (r: seq<OrdEntry>)
    requires i < |s|
    ensures |r| == |s| - 1
  {
    s[..i] + s[i + 1..]
  }

  ghost predicate Inserted(s: seq<OrdEntry>, e: OrdEntry, r: seq<OrdEntry>)
  {
    exists i | 0 <= i <= |s| :: r == InsertAt(s, i, e)
  }

  ghost predicate Removed(s: seq<OrdEntry>, key: Bytes, r: seq<OrdEntry>)
  {
    exists i | 0 <= i < |s| :: s[i].key == key && r == RemoveAt(s, i)
  }

  lemma KeysOfConcat(a: seq<OrdEntry>, b: seq<OrdEntry>)
    ensures KeysOf(a + b) == KeysOf(a) + KeysOf(b)
  {
    var s := a + b;
    forall k | k in KeysOf(s)
      ensures k in KeysOf(a) + KeysOf(b)
    {
      var j :| 0 <= j < |s| && s[j].key == k;
      if j < |a| { assert a[j].key == k; } else { assert b[j - |a|].key == k; }
    }
    forall k | k in KeysOf(a)
      ensures k in KeysOf(s)
    {
      var j :| 0 <= j < |a| && a[j].key == k;
      assert s[j].key == k;
    }
    forall k | k in KeysOf(b)
      ensures k in KeysOf(s)
    {
      var j :| 0 <= j < |b| && b[j].key == k;
      assert s[|a| + j].key == k;
    }
  }

  lemma KeysOfOne(e: OrdEntry)
    ensures KeysOf([e]) == {e.key}
  {
    assert [e][0].key == e.key;
  }

  lemma InsertedFacts(s: seq<OrdEntry>, e: OrdEntry, r: seq<OrdEntry>)
    requires Inserted(s, e, r) && DistinctKeys(s) && e.key !in KeysOf(s)
    ensures DistinctKeys(r) && KeysOf(r) == KeysOf(s) + {e.key}
    ensures forall x: OrdEntry :: x in r <==> x == e || x in s
  {
    var i :| 0 <= i <= |s| && r == InsertAt(s, i, e);
    assert s == s[..i] + s[i..];
    InsertedKeys(s, e, i);
    InsertedDistinct(s, e, i);
  }

  lemma InsertedKeys(s: seq<OrdEntry>, e: OrdEntry, i: nat)
    requires i <= |s|
    ensures KeysOf(InsertAt(s, i, e)) == KeysOf(s) + {e.key}
  {
    hide KeysOf;
    assert s == s[..i] + s[i..];
    KeysOfConcat(s[..i], s[i..]);
    KeysOfConcat(s[..i] + [e], s[i..]);
    KeysOfConcat(s[..i], [e]);
    KeysOfOne(e);
  }

  lemma InsertedDistinct(s: seq<OrdEntry>, e: OrdEntry, i: nat)
    requires i <= |s| && DistinctKeys(s) && e.key !in KeysOf(s)
    ensures DistinctKeys(InsertAt(s, i, e))
  {
    var r := InsertAt(s, i, e);
    assert forall j | 0 <= j < |s| :: s[j].key in KeysOf(s);
    hide KeysOf;
    forall j, k | 0 <= j < k < |r|
      ensures r[j].key != r[k].key
    {
      if j != i && k != i {
        assert s[if j < i then j else j - 1].key != s[if k < i then k else k - 1].key;
      }
    }
  }

  lemma RemovedFacts(s: seq<OrdEntry>, key: Bytes, r: seq<OrdEntry>)
    requires Removed(s, key, r) && DistinctKeys(s)
    ensures DistinctKeys(r) && KeysOf(r) == KeysOf(s) - {key} && KeysOf(s) == KeysOf(r) + {key}
    ensures forall x: OrdEntry :: x in r <==> x in s && x.key != key
  {
    var i :| 0 <= i < |s| && s[i].key == key && r == RemoveAt(s, i);
    hide KeysOf, DistinctKeys, RemoveAt, InsertAt;
    RemoveThenInsert(s, i);
    InsertedKeys(r, s[i], i);
    RemovedDistinct(s, i);
    RemovedMembers(s, i);
    if key in KeysOf(r) {
      var j := AtKey(r, key);
      RemovedOthers(s, i, j);
    }
  }

  lemma RemovedMembers(s: seq<OrdEntry>, i: nat)
    requires DistinctKeys(s) && i < |s|
    ensures forall x: OrdEntry :: x in RemoveAt(s, i) <==> x in s && x.key != s[i].key
  {
    hide DistinctKeys, RemoveAt, InsertAt;
    RemoveThenInsert(s, i);
    var r := RemoveAt(s, i);
    forall x: OrdEntry
      ensures x in r <==> x in s && x.key != s[i].key
    {
      if x in r {
        var j :| 0 <= j < |r| && r[j] == x;
        RemovedOthers(s, i, j);
      }
    }
  }

  lemma RemoveThenInsert(s: seq<OrdEntry>, i: nat)
    requires i < |s|
    ensures InsertAt(RemoveAt(s, i), i, s[i]) == s
    ensures forall x: OrdEntry :: x in s <==> x == s[i] || x in RemoveAt(s, i)
  {
    assert s == s[..i] + [s[i]] + s[i + 1..];
  }

  lemma AtKey(s: seq<OrdEntry>, key: Bytes) returns (j: nat)
    requires key in KeysOf(s)
    ensures j < |s| && s[j].key == key
  {
    var i :| 0 <= i < |s| && s[i].key == key;
    j := i;
  }

  lemma RemovedOthers(s: seq<OrdEntry>, i: nat, j: nat)
    requires DistinctKeys(s) && i < |s| && j < |s| - 1
    ensures RemoveAt(s, i)[j].key != s[i].key
  {
    assert RemoveAt(s, i)[j] == s[if j < i then j else j + 1];
  }

  lemma RemovedDistinct(s: seq<OrdEntry>, i: nat)
    requires DistinctKeys(s) && i < |s|
    ensures DistinctKeys(RemoveAt(s, i))
  {
    var r := RemoveAt(s, i);
    forall j, k | 0 <= j < k < |r|
      ensures r[j].key != r[k].key
    {
      assert s[if j < i then j else j + 1].key != s[if k < i then k else k + 1].key;
    }
  }

  /** A clean list has one place where e belongs. */
  lemma SplitsAt(s: seq<OrdEntry>, e: OrdEntry, i: nat)
    requires Sorted(s) && e.key !in KeysOf(s) && i <= |s|
    requires forall j | 0 <= j < i :: OrdLess(s[j], e)
    requires forall j | i <= j < |s| :: !OrdLess(s[j], e)
    ensures Sorted(InsertAt(s, i, e))
  {
    hide OrdLess;
    forall j | i <= j < |s|
      ensures OrdLess(e, s[j])
    {
      assert s[j].key in KeysOf(s);
      OrdLessLaws(s[j], e, e);
    }
    var r := InsertAt(s, i, e);
    assert forall j | 0 <= j < |r| :: r[j] == if j < i then s[j] else if j == i then e else s[j - 1];
  }

  lemma SearchIsMonotone(s: seq<OrdEntry>, e: OrdEntry)
    requires Sorted(s)
    ensures forall i, j | 0 <= i < j < |s| :: !OrdLess(s[i], e) ==> !OrdLess(s[j], e)
  {
    hide OrdLess;
    forall i, j | 0 <= i < j < |s| && !OrdLess(s[i], e)
      ensures !OrdLess(s[j], e)
    {
      OrdLessLaws(s[i], s[j], e);
    }
  }

  method Add(s: seq<OrdEntry>, dirty: bool, e: OrdEntry) returns (r: seq<OrdEntry>)
    requires e.key !in KeysOf(s) && (!dirty ==> Sorted(s))
    ensures Inserted(s, e, r) && (!dirty ==> Sorted(r))
  {
    hide OrdLess, Sorted;
    if dirty {
      r := s + [e];
      assert r == InsertAt(s, |s|, e);
      return;
    }
    SearchIsMonotone(s, e);
    var atOrAfter := (j: nat) requires j < |s| => !OrdLess(s[j], e);
    var i := Search(|s|, atOrAfter);
    r := s[..i] + [e] + s[i..];
    forall j: nat | j < |s|
      ensures OrdLess(s[j], e) <==> j < i
    {
      assert atOrAfter(j) <==> i <= j;
    }
    SplitsAt(s, e, i);
    assert r == InsertAt(s, i, e);
  }

  /** Remove the entry of a key: by position when the list is clean and the value
      leads there, otherwise by walking. */
  method Remove(s: seq<OrdEntry>, dirty: bool, e: OrdEntry) returns (r: seq<OrdEntry>)
    requires !dirty ==> Sorted(s)
    ensures if e.key in KeysOf(s) then Removed(s, e.key, r) else r == s
    ensures !dirty ==> Sorted(r)
  {
    hide OrdLess;
    if !dirty {
      SearchIsMonotone(s, e);
      var i := Search(|s|, j requires 0 <= j < |s| => !OrdLess(s[j], e));
      if i < |s| && s[i].key == e.key {
        r := s[..i] + s[i + 1..];
        RemoveKeepsOrder(s, i);
        assert r == RemoveAt(s, i);
        assert s[i].key in KeysOf(s);
        return;
      }
    }
    for j := 0 to |s|
      invariant forall k | 0 <= k < j :: s[k].key != e.key
    {
      if s[j].key == e.key {
        r := s[..j] + s[j + 1..];
        if !dirty { RemoveKeepsOrder(s, j); }
        assert r == RemoveAt(s, j);
        assert s[j].key in KeysOf(s);
        return;
      }
    }
    r := s;
  }

  lemma RemoveKeepsOrder(s: seq<OrdEntry>, i: nat)
    requires Sorted(s) && i < |s|
    ensures Sorted(RemoveAt(s, i))
  {
    var r := RemoveAt(s, i);
    assert forall j | 0 <= j < |r| :: r[j] == s[if j < i then j else j + 1];
  }

  /** In a clean list the binary search lands on the entry itself: the walk that
      follows it is never needed. */
  lemma SearchFindsEntry(s: seq<OrdEntry>, e: OrdEntry, i: nat)
    requires Sorted(s) && e in s && i <= |s|
    requires forall j | 0 <= j < i :: OrdLess(s[j], e)
    requires forall j | i <= j < |s| :: !OrdLess(s[j], e)
    ensures i < |s| && s[i] == e
  {
    hide OrdLess;
    var at :| 0 <= at < |s| && s[at] == e;
    OrdLessLaws(e, e, e);
  }

  // ---------------------------------------------------------------- sorting

  lemma NothingIsSorted()
    ensures Sorted([])
  {
  }

  /** sort.Slice on distinct keys: the same entries, in order. */
  method Sort(s: seq<OrdEntry>) returns (r: seq<OrdEntry>)
    requires DistinctKeys(s)
    ensures Sorted(r) && DistinctKeys(r) && KeysOf(r) == KeysOf(s)
    ensures forall x: OrdEntry :: x in r <==> x in s
  {
    hide OrdLess, Sorted;
    r := [];
    NothingIsSorted();
    for i := 0 to |s|
      invariant Sorted(r) && DistinctKeys(r) && KeysOf(r) == KeysOf(s[..i])
      invariant forall x: OrdEntry :: x in r <==> x in s[..i]
    {
      NextKeyIsNew(s, i);
      var grown := Add(r, false, s[i]);
      InsertedFacts(r, s[i], grown);
      r := grown;
    }
    assert s[..|s|] == s;
  }

  lemma NextKeyIsNew(s: seq<OrdEntry>, i: nat)
    requires DistinctKeys(s) && i < |s|
    ensures s[i].key !in KeysOf(s[..i]) && KeysOf(s[..i + 1]) == KeysOf(s[..i]) + {s[i].key}
    ensures s[..i + 1] == s[..i] + [s[i]]
  {
    assert s[..i + 1] == s[..i] + [s[i]];
    forall k | k in KeysOf(s[..i])
      ensures k in KeysOf(s[..i + 1])
    {
      var j :| 0 <= j < i && s[..i][j].key == k;
      assert s[..i + 1][j].key == k;
    }
    assert s[..i + 1][i].key == s[i].key;
    forall k | k in KeysOf(s[..i + 1])
      ensures k in KeysOf(s[..i]) + {s[i].key}
    {
      var j :| 0 <= j < i + 1 && s[..i + 1][j].key == k;
      if j < i { assert s[..i][j].key == k; }
    }
  }

  /** A sorted list with distinct keys is determined by its entries. */
  lemma {:induction false} SortedUnique(a: seq<OrdEntry>, b: seq<OrdEntry>)
    requires Sorted(a) && Sorted(b) && forall x: OrdEntry :: x in a <==> x in b
    ensures a == b
  {
    hide OrdLess;
    assert b != [] ==> b[0] in b;
    if a != [] {
      assert a[0] in b;
      assert b[0] in a;
      var i :| 0 <= i < |b| && b[i] == a[0];
      var j :| 0 <= j < |a| && a[j] == b[0];
      OrdLessLaws(a[0], b[0], a[0]);
      assert a[0] == b[0];
      forall x: OrdEntry
        ensures x in a[1..] <==> x in b[1..]
      {
        OrdLessLaws(a[0], a[0], a[0]);
        assert x in a <==> x == a[0] || x in a[1..];
        assert x in b <==> x == b[0] || x in b[1..];
        assert a[0] !in a[1..] && b[0] !in b[1..];
      }
      SortedUnique(a[1..], b[1..]);
      assert a == [a[0]] + a[1..] && b == [b[0]] + b[1..];
    }
  }
}
