/** Bytes, Go strings (which are byte strings) and the fixed-width integers the
    record log and the BSON codec write. */
module ByteCodec {

  type Byte = b: int | 0 <= b < 256
  type Bytes = seq<Byte>
  type U32 = n: int | 0 <= n < 0x1_0000_0000

  datatype Option<+T> = None | Some(value: T)

  /** A text written in seven-bit characters. */
  function Ascii(s: string): (b: Bytes)
    requires forall i | 0 <= i < |s| :: s[i] as int < 128
    ensures |b| == |s| && forall i | 0 <= i < |s| :: b[i] == s[i] as int
  {
    seq(|s|, i requires 0 <= i < |s| => s[i] as int)
  }

  function Get<K, V>(m: map<K, V>, k: K): Option<V> { if k in m then Some(m[k]) else None }

  /** 256 to the power w: the number of values that fit in w bytes. */
  function Span(w: nat): (r: int)
    ensures r >= 1
  {
    if w == 0 then 1 else 256 * Span(w - 1)
  }

  lemma SpanOfWords()
    ensures Span(2) == 0x1_0000
    ensures Span(4) == 0x1_0000_0000
    ensures Span(8) == 0x1_0000_0000_0000_0000
  {
    assert Span(2) == 0x1_0000;
    assert Span(3) == 256 * Span(2);
    assert Span(4) == 256 * Span(3);
    assert Span(5) == 256 * Span(4);
    assert Span(6) == 256 * Span(5);
    assert Span(7) == 256 * Span(6);
  }

  /** The low w bytes of n, least significant first. */
  function LE(n: nat, w: nat): (r: Bytes)
    ensures |r| == w
  {
    if w == 0 then [] else [n % 256] + LE(n / 256, w - 1)
  }

  function UnLE(b: Bytes): (n: nat)
    ensures n < Span(|b|)
  {
    if b == [] then 0 else b[0] + 256 * UnLE(b[1..])
  }

  lemma {:induction false} LERoundTrip(n: nat, w: nat)
    requires n < Span(w)
    ensures UnLE(LE(n, w)) == n
  {
    if w > 0 {
      LERoundTrip(n / 256, w - 1);
      assert LE(n, w)[1..] == LE(n / 256, w - 1);
    }
  }

  /** Any bytes are the encoding of the number they spell. */
  lemma {:induction false} UnLERoundTrip(b: Bytes)
    ensures LE(UnLE(b), |b|) == b
  {
    if b != [] {
      UnLERoundTrip(b[1..]);
      assert UnLE(b) % 256 == b[0] && UnLE(b) / 256 == UnLE(b[1..]);
    }
  }

  /** Two and four bytes, spelled out. */
  lemma LittleEndian(n: nat)
    ensures n < 0x1_0000 ==> LE(n, 2) == [n % 256, n / 256]
    ensures n < 0x1_0000_0000 ==> LE(n, 4) == [n % 256, n / 256 % 256, n / 0x1_0000 % 256, n / 0x100_0000]
  {
    var a := n / 256;
    var b := a / 256;
    var c := b / 256;
    LastBytes(n);
    assert LE(n, 2) == [n % 256] + LE(a, 1) && LE(a, 1) == [a % 256] + LE(b, 0);
    assert LE(n, 4) == [n % 256] + LE(a, 3) && LE(a, 3) == [a % 256] + LE(b, 2);
    assert LE(b, 2) == [b % 256] + LE(c, 1) && LE(c, 1) == [c % 256] + LE(c / 256, 0);
  }

  lemma LastBytes(n: nat)
    ensures n / 256 / 256 == n / 0x1_0000 && n / 256 / 256 / 256 == n / 0x100_0000
    ensures n < 0x1_0000 ==> n / 256 < 256
    ensures n < 0x1_0000_0000 ==> n / 0x100_0000 < 256
  {
  }

  /** The bytes of a number spell it. */
  lemma SpelledOut(n: nat)
    ensures n < 0x1_0000 ==> Word(n % 256, n / 256) == n
    ensures n < 0x1_0000_0000 ==> DoubleWord(n % 256, n / 256 % 256, n / 0x1_0000 % 256, n / 0x100_0000) == n
  {
    LastBytes(n);
    var a := n / 256;
    var b := a / 256;
    assert n == n % 256 + 256 * a && a == a % 256 + 256 * b && b == b % 256 + 256 * (b / 256);
  }

  function Word(a: int, b: int): int { a + 256 * b }

  function DoubleWord(a: int, b: int, c: int, d: int): int { a + 256 * b + 0x1_0000 * c + 0x100_0000 * d }

  lemma UnLittleEndian(b: Bytes)
    ensures |b| == 2 ==> UnLE(b) == Word(b[0], b[1])
    ensures |b| == 4 ==> UnLE(b) == DoubleWord(b[0], b[1], b[2], b[3])
  {
    if |b| == 2 || |b| == 4 {
      assert UnLE(b[1..]) == b[1] + 256 * UnLE(b[1..][1..]);
      assert b[1..][1..] == b[2..];
    }
    if |b| == 4 {
      assert UnLE(b[2..]) == b[2] + 256 * UnLE(b[2..][1..]);
      assert b[2..][1..] == b[3..];
      assert UnLE(b[3..]) == b[3] + 256 * UnLE(b[3..][1..]);
    }
  }

  /** The decimal text of a length or a position. */
  function Digits(n: nat): (d: Bytes)
    ensures d != [] && forall i | 0 <= i < |d| :: 48 <= d[i] <= 57
  {
    if n < 10 then [48 + n] else Digits(n / 10) + [48 + n % 10]
  }

  /** Go's `<` on strings: bytewise lexicographic order. */
  predicate Less(a: Bytes, b: Bytes)
  {
    b != [] && (a == [] || a[0] < b[0] || (a[0] == b[0] && Less(a[1..], b[1..])))
  }

  lemma {:induction false} LessIrreflexive(a: Bytes)
    ensures !Less(a, a)
  {
    if a != [] { LessIrreflexive(a[1..]); }
  }

  lemma {:induction false} LessTransitive(a: Bytes, b: Bytes, c: Bytes)
    requires Less(a, b) && Less(b, c)
    ensures Less(a, c)
  {
    if a != [] && a[0] == b[0] && b[0] == c[0] { LessTransitive(a[1..], b[1..], c[1..]); }
  }

  lemma {:induction false} LessConnected(a: Bytes, b: Bytes)
    requires a != b
    ensures Less(a, b) || Less(b, a)
  {
    if a != [] && b != [] && a[0] == b[0] {
      assert a == [a[0]] + a[1..] && b == [b[0]] + b[1..];
      LessConnected(a[1..], b[1..]);
    }
  }

  /** Which texts come first: at the first byte in which they differ the smaller one
      decides, and a text comes before its extensions. */
  lemma {:induction false} FirstDifference(p: Bytes, x: Byte, s: Bytes, y: Byte, t: Bytes)
    ensures x < y ==> Less(p + [x] + s, p + [y] + t) && !Less(p + [y] + t, p + [x] + s)
    ensures Less(p, p + [x] + s) && !Less(p + [x] + s, p)
  {
    var a, b := p + [x] + s, p + [y] + t;
    if p != [] {
      FirstDifference(p[1..], x, s, y, t);
      assert a[1..] == p[1..] + [x] + s && b[1..] == p[1..] + [y] + t;
    }
  }
}
