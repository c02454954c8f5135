/** Byte strings, their bytewise order (`bytes.Compare`), and big-endian integers. */
module Bytes {

  type byte = x: int | 0 <= x < 256
  type Bytes = seq<byte>

  datatype Option<+T> = None | Some(value: T)

  /** `bytes.Compare(a, b) < 0`. */
  predicate Lt(a: Bytes, b: Bytes)
    decreases |a|
  {
    |b| > 0 && (|a| == 0 || a[0] < b[0] || (a[0] == b[0] && Lt(a[1..], b[1..])))
  }

  predicate Le(a: Bytes, b: Bytes) {
    a == b || Lt(a, b)
  }

  predicate HasPrefix(s: Bytes, p: Bytes) {
    p <= s
  }

  lemma {:induction false} LtIrreflexive(a: Bytes)
    ensures !Lt(a, a)
  {
    if a != [] { LtIrreflexive(a[1..]); }
  }

  lemma {:induction false} LtTransitive(a: Bytes, b: Bytes, c: Bytes)
    requires Lt(a, b) && Lt(b, c)
    ensures Lt(a, c)
    decreases |a|
  {
    if a != [] && a[0] == b[0] && b[0] == c[0] { LtTransitive(a[1..], b[1..], c[1..]); }
  }

  lemma {:induction false} LtTotal(a: Bytes, b: Bytes)
    ensures Lt(a, b) || a == b || Lt(b, a)
    ensures !(Lt(a, b) && Lt(b, a))
    decreases |a|
  {
    if a != [] && b != [] {
      LtTotal(a[1..], b[1..]);
      assert a == [a[0]] + a[1..] && b == [b[0]] + b[1..];
    }
  }

  lemma {:induction false} LeTransitive(a: Bytes, b: Bytes, c: Bytes)
    requires Le(a, b) && Le(b, c)
    ensures Le(a, c)
    ensures Lt(a, b) || Lt(b, c) ==> Lt(a, c)
  {
    if a != b && b != c { LtTransitive(a, b, c); }
  }

  /** A common prefix does not affect the order. */
  lemma {:induction false} LtCommonPrefix(p: Bytes, a: Bytes, b: Bytes)
    ensures Lt(p + a, p + b) <==> Lt(a, b)
  {
    if p == [] {
      assert p + a == a && p + b == b;
    } else {
      assert (p + a)[1..] == p[1..] + a && (p + b)[1..] == p[1..] + b;
      LtCommonPrefix(p[1..], a, b);
    }
  }

  /** Strings of equal length that differ are ordered whatever follows them. */
  lemma {:induction false} LtExtend(a: Bytes, b: Bytes, x: Bytes, y: Bytes)
    requires |a| == |b| && a != b
    ensures Lt(a + x, b + y) <==> Lt(a, b)
  {
    assert (a + x)[1..] == a[1..] + x && (b + y)[1..] == b[1..] + y;
    if a[0] == b[0] {
      assert a == [a[0]] + a[1..] && b == [b[0]] + b[1..];
      LtExtend(a[1..], b[1..], x, y);
    }
  }

  lemma {:induction false} PrefixLe(p: Bytes, s: Bytes)
    requires HasPrefix(s, p)
    ensures Le(p, s)
  {
    if p != [] {
      PrefixLe(p[1..], s[1..]);
      assert p == [p[0]] + p[1..] && s == [s[0]] + s[1..];
    } 
  }

  /** Keys sharing a prefix are contiguous: anything between two of them has it too. */
  lemma {:induction false} PrefixConvex(p: Bytes, a: Bytes, m: Bytes, b: Bytes)
    requires HasPrefix(a, p) && HasPrefix(b, p) && Le(a, m) && Le(m, b)
    ensures HasPrefix(m, p)
  {
    if p != [] {
      LtTotal(a[1..], b[1..]);
      PrefixConvex(p[1..], a[1..], m[1..], b[1..]);
      assert p == [p[0]] + p[1..] && m == [m[0]] + m[1..];
    }
  }

  // ---- Big-endian integers ----

  function Pow256(w: nat): (r: nat)
    ensures r > 0
  {
    if w == 0 then 1 else 256 * Pow256(w - 1)
  }

  /** The `w` low bytes of `n`, most significant first: what `PutUint16/32/64` writes. */
  function BigEndian(n: nat, w: nat): (r: Bytes)
    ensures |r| == w
  {
    if w == 0 then [] else BigEndian(n / 256, w - 1) + [n % 256]
  }

  function FromBigEndian(b: Bytes): nat {
    if b == [] then 0 else 256 * FromBigEndian(b[..|b| - 1]) + b[|b| - 1]
  }

  lemma {:induction false} SmallBigEndian(n: nat)
    requires n < 256
    ensures BigEndian(n, 4) == [0, 0, 0, n] && BigEndian(n, 8) == [0, 0, 0, 0, 0, 0, 0, n]
  {
    assert BigEndian(0, 1) == [0] && BigEndian(0, 2) == [0, 0] && BigEndian(0, 3) == [0, 0, 0];
    assert BigEndian(0, 5) == [0, 0, 0, 0, 0] && BigEndian(0, 7) == [0, 0, 0, 0, 0, 0, 0];
  }

  lemma {:induction false} BigEndianRoundTrip(n: nat, w: nat)
    requires n < Pow256(w)
    ensures FromBigEndian(BigEndian(n, w)) == n
  {
    if w > 0 {
      var b := BigEndian(n, w);
      assert b[..w - 1] == BigEndian(n / 256, w - 1);
      BigEndianRoundTrip(n / 256, w - 1);
    }
  }

  lemma {:induction false} FromBigEndianBound(b: Bytes)
    ensures FromBigEndian(b) < Pow256(|b|)
    ensures BigEndian(FromBigEndian(b), |b|) == b
  {
    if b != [] {
      FromBigEndianBound(b[..|b| - 1]);
      var q := FromBigEndian(b[..|b| - 1]);
      var l := b[|b| - 1];
      assert (256 * q + l) / 256 == q && (256 * q + l) % 256 == l;
      assert b == b[..|b| - 1] + [l];
    }
  }

  /** Fixed-width big-endian integers compare bytewise as the integers do. */
  lemma {:induction false} BigEndianOrder(m: nat, n: nat, w: nat)
    requires m < Pow256(w) && n < Pow256(w)
    ensures Lt(BigEndian(m, w), BigEndian(n, w)) <==> m < n
    ensures BigEndian(m, w) == BigEndian(n, w) <==> m == n
  {
    BigEndianRoundTrip(m, w);
    BigEndianRoundTrip(n, w);
    if w > 0 {
      var a, b := BigEndian(m / 256, w - 1), BigEndian(n / 256, w - 1);
      BigEndianOrder(m / 256, n / 256, w - 1);
      if a == b {
        LtCommonPrefix(a, [m % 256], [n % 256]);
      } else {
        LtExtend(a, b, [m % 256], [n % 256]);
      }
    }
  }

  // ---- Strictly ascending key lists ----

  ghost predicate Ascending(s: seq<Bytes>) {
    forall i, j :: 0 <= i < j < |s| ==> Lt(s[i], s[j])
  }

  /** A set of keys has one ascending listing, so sorting by key is a function of the set. */
  lemma {:induction false} AscendingUnique(s: seq<Bytes>, t: seq<Bytes>)
    requires Ascending(s) && Ascending(t)
    requires forall k :: k in s <==> k in t
    ensures s == t
    decreases |s| + |t|
  {
    assert s == [] <==> t == [] by {
      assert s != [] ==> s[0] in s;
      assert t != [] ==> t[0] in t;
    }
    if s != [] {
      FirstIsLeast(s, t);
      FirstIsLeast(t, s);
      LtTotal(s[0], t[0]);
      assert s == [s[0]] + s[1..] && t == [t[0]] + t[1..];
      forall k ensures k in s[1..] <==> k in t[1..] {
        LtIrreflexive(s[0]);
        assert k in s <==> k in t;
        assert k in s[1..] ==> k in s && k != s[0];
        assert k in t[1..] ==> k in t && k != t[0];
      }
      AscendingUnique(s[1..], t[1..]);
    }
  }

  lemma {:induction false} FirstIsLeast(s: seq<Bytes>, t: seq<Bytes>)
    requires Ascending(s) && s != [] && t != []
    requires t[0] in s
    ensures Le(s[0], t[0])
  {
    var i :| 0 <= i < |s| && s[i] == t[0];
    assert i > 0 ==> Lt(s[0], s[i]);
  }
}
