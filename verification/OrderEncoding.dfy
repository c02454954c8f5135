/** Memcomparable encodings (engine/internal/executor/orderenc.go): bytewise order of the encodings
    is the order of the values, and a value's encoding ends where the reader can see it end. */
module OrderEncoding {
  import opened Bytes

  const TWO_63: int := 0x8000_0000_0000_0000
  const TWO_64: int := 0x1_0000_0000_0000_0000

  type int64 = x: int | -0x8000_0000_0000_0000 <= x < 0x8000_0000_0000_0000

  /** A column value by its type: int4/int8, bool, or anything ordered as text. */
  datatype Value = Int(i: int64) | Bool(b: bool) | Text(s: Bytes)

  predicate SameKind(a: Value, b: Value) {
    (a.Int? <==> b.Int?) && (a.Bool? <==> b.Bool?)
  }

  /** The order of the column type. */
  predicate Less(a: Value, b: Value)
    requires SameKind(a, b)
  {
    match a
    case Int(i) => i < b.i
    case Bool(x) => !x && b.b
    case Text(s) => Lt(s, b.s)
  }

  /** `uint64(v)`: two's complement. */
  function ToUint64(v: int64): nat {
    if v < 0 then v + TWO_64 else v
  }

  /** `u ^ (1 << 63)` on a 64-bit word. */
  function FlipSignBit(u: nat): nat
    requires u < TWO_64
  {
    if u >= TWO_63 then u - TWO_63 else u + TWO_63
  }

  function EncodeText(s: Bytes): (r: Bytes)
    ensures |r| >= 2
    decreases |s|
  {
    if s == [] then [0, 0]
    else (if s[0] == 0 then [0, 0xFF] else [s[0]]) + EncodeText(s[1..])
  }

  function OrderEncode(v: Value): (r: Bytes) {
    match v
    case Int(i) => BigEndian(FlipSignBit(ToUint64(i)), 8)
    case Bool(b) => if b then [1] else [0]
    case Text(s) => EncodeText(s)
  }

  /** Concatenated column encodings of one index entry. */
  function EncodeTuple(vs: seq<Value>): Bytes
    decreases |vs|
  {
    if vs == [] then [] else OrderEncode(vs[0]) + EncodeTuple(vs[1..])
  }

  ghost predicate SameShape(a: seq<Value>, b: seq<Value>) {
    |a| == |b| && forall i :: 0 <= i < |a| ==> SameKind(a[i], b[i])
  }

  /** Column by column, first difference decides. */
  predicate TupleLess(a: seq<Value>, b: seq<Value>)
    requires |a| == |b|
    requires forall i :: 0 <= i < |a| ==> SameKind(a[i], b[i])
    decreases |a|
  {
    a != [] && (Less(a[0], b[0]) || (a[0] == b[0] && TupleLess(a[1..], b[1..])))
  }

  /** The escaping loop. */
  method EncodeOrderedText(s: Bytes) returns (out: Bytes)
    ensures out == EncodeText(s)
  {
    out := [];
    var i := 0;
    while i < |s|
      invariant 0 <= i <= |s|
      invariant out + EncodeText(s[i..]) == EncodeText(s)
    {
      assert s[i..][1..] == s[i + 1..];
      ghost var before := out;
      if s[i] == 0 {
        out := out + [0, 0xFF];
      } else {
        out := out + [s[i]];
      }
      assert before + EncodeText(s[i..]) == out + EncodeText(s[i + 1..]);
      i := i + 1;
    }
    out := out + [0, 0];
  }

  // ---- Different values are decided before either encoding ends ----

  lemma {:induction false} TextDecides(a: Bytes, b: Bytes, x: Bytes, y: Bytes)
    requires a != b
    ensures Lt(EncodeText(a) + x, EncodeText(b) + y) <==> Lt(a, b)
    decreases |a|
  {
    var ea, eb := EncodeText(a) + x, EncodeText(b) + y;
    if a == [] || b == [] {
      assert ea[0] == if a == [] then 0 else a[0];
      assert eb[0] == if b == [] then 0 else b[0];
      assert a == [] ==> ea[1] == 0;
      assert b == [] ==> eb[1] == 0;
      assert a != [] && a[0] == 0 ==> ea[1] == 0xFF;
      assert b != [] && b[0] == 0 ==> eb[1] == 0xFF;
      assert ea[1..][0] == ea[1] && eb[1..][0] == eb[1];
    } else if a[0] == b[0] {
      assert a == [a[0]] + a[1..] && b == [b[0]] + b[1..];
      var head: Bytes := if a[0] == 0 then [0, 0xFF] else [a[0]];
      assert ea == head + (EncodeText(a[1..]) + x) && eb == head + (EncodeText(b[1..]) + y);
      LtCommonPrefix(head, EncodeText(a[1..]) + x, EncodeText(b[1..]) + y);
      TextDecides(a[1..], b[1..], x, y);
    } else {
      assert ea[0] == a[0] && eb[0] == b[0];
    }
  }

  lemma {:induction false} IntDecides(a: int64, b: int64, x: Bytes, y: Bytes)
    requires a != b
    ensures Lt(OrderEncode(Int(a)) + x, OrderEncode(Int(b)) + y) <==> a < b
  {
    hide BigEndian;
    var m, n := FlipSignBit(ToUint64(a)), FlipSignBit(ToUint64(b));
    assert m == a + TWO_63 && n == b + TWO_63;
    Pow256Eight();
    BigEndianOrder(m, n, 8);
    LtExtend(BigEndian(m, 8), BigEndian(n, 8), x, y);
  }

  lemma {:induction false} Pow256Eight()
    ensures Pow256(8) == TWO_64
  {
    assert Pow256(2) == 0x1_0000;
    assert Pow256(4) == 0x1_0000_0000;
    assert Pow256(6) == 0x1_0000_0000_0000;
  }

  /** Order-preserving and prefix-free in one statement: whatever follows, two different values of
      one type compare by their encodings as the values do. */
  lemma {:induction false} EncodingDecides(a: Value, b: Value, x: Bytes, y: Bytes)
    requires SameKind(a, b) && a != b
    ensures Lt(OrderEncode(a) + x, OrderEncode(b) + y) <==> Less(a, b)
  {
    match a
    case Int(i) => IntDecides(i, b.i, x, y);
    case Bool(p) => assert (OrderEncode(a) + x)[0] != (OrderEncode(b) + y)[0];
    case Text(s) => TextDecides(s, b.s, x, y);
  }

  /** Values of one type are ordered one way or the other. */
  lemma {:induction false} LessTotal(a: Value, b: Value)
    requires SameKind(a, b)
    ensures a == b || Less(a, b) || Less(b, a)
    ensures !(Less(a, b) && Less(b, a)) && !Less(a, a)
  {
    match a
    case Text(s) => LtTotal(s, b.s); LtIrreflexive(s);
    case _ =>
  }

  lemma {:induction false} TupleLessTotal(a: seq<Value>, b: seq<Value>)
    requires SameShape(a, b)
    ensures a == b || TupleLess(a, b) || TupleLess(b, a)
    ensures !(TupleLess(a, b) && TupleLess(b, a))
    decreases |a|
  {
    if a != [] {
      LessTotal(a[0], b[0]);
      LessTotal(b[0], a[0]);
      TupleLessTotal(a[1..], b[1..]);
      assert a == [a[0]] + a[1..] && b == [b[0]] + b[1..];
    }
  }

  /** Concatenated tuples compare bytewise exactly as the value tuples do, whatever follows. */
  lemma {:induction false} TupleDecides(a: seq<Value>, b: seq<Value>, x: Bytes, y: Bytes)
    requires SameShape(a, b) && a != b
    ensures Lt(EncodeTuple(a) + x, EncodeTuple(b) + y) <==> TupleLess(a, b)
    decreases |a|
  {
    hide OrderEncode;
    var ra, rb := EncodeTuple(a[1..]) + x, EncodeTuple(b[1..]) + y;
    assert EncodeTuple(a) + x == OrderEncode(a[0]) + ra && EncodeTuple(b) + y == OrderEncode(b[0]) + rb;
    LessTotal(a[0], b[0]);
    if a[0] == b[0] {
      assert a == [a[0]] + a[1..] && b == [b[0]] + b[1..];
      LtCommonPrefix(OrderEncode(a[0]), ra, rb);
      TupleDecides(a[1..], b[1..], x, y);
    } else {
      EncodingDecides(a[0], b[0], ra, rb);
    }
  }

  /** No tuple's encoding is a prefix of another's followed by anything: equal bytes mean equal
      tuples, and equal rests. */
  lemma {:induction false} TuplePrefixFree(a: seq<Value>, b: seq<Value>, x: Bytes, y: Bytes)
    requires SameShape(a, b)
    requires EncodeTuple(a) + x == EncodeTuple(b) + y
    ensures a == b && x == y
  {
    if a != b {
      TupleDecides(a, b, x, y);
      TupleDecides(b, a, y, x);
      TupleLessTotal(a, b);
      LtIrreflexive(EncodeTuple(a) + x);
    } else {
      var n := |EncodeTuple(a)|;
      assert x == (EncodeTuple(a) + x)[n..] && y == (EncodeTuple(b) + y)[n..];
    }
  }

  lemma {:induction false} EncodeTupleSplit(vs: seq<Value>, n: nat)
    requires n <= |vs|
    ensures EncodeTuple(vs) == EncodeTuple(vs[..n]) + EncodeTuple(vs[n..])
    decreases |vs|
  {
    hide OrderEncode;
    if n == 0 {
      assert vs[..0] == [] && vs[0..] == vs;
    } else {
      EncodeTupleSplit(vs[1..], n - 1);
      assert vs[..n][1..] == vs[1..][..n - 1] && vs[1..][n - 1..] == vs[n..];
    }
  }

  /** The encoding starts with 0xFF, the byte that ends an index range: integers from
      0x7F00_0000_0000_0000 up, and text whose first byte is 0xFF. */
  predicate StartsHigh(v: Value) {
    match v
    case Int(i) => i >= 0x7F00_0000_0000_0000
    case Bool(_) => false
    case Text(s) => s != [] && s[0] == 0xFF
  }

  lemma {:induction false} TopByte(n: nat)
    requires n < TWO_64
    ensures BigEndian(n, 8)[0] == 0xFF <==> n >= 0xFF00_0000_0000_0000
  {
    var top := 0xFF00_0000_0000_0000;
    var (b, c) := (BigEndian(n, 8), BigEndian(top, 8));
    Pow256Eight();
    BigEndianOrder(n, top, 8);
    TopWord();
    if b[0] == 0xFF {
      NotBelowZeros(b[1..], c[1..]);
    }
  }

  lemma {:induction false} TopWord()
    ensures BigEndian(0xFF00_0000_0000_0000, 8) == [0xFF, 0, 0, 0, 0, 0, 0, 0]
  {
    assert BigEndian(0xFF, 1) == [0xFF];
    assert BigEndian(0xFF00, 2) == [0xFF, 0];
    assert BigEndian(0xFF_0000, 3) == [0xFF, 0, 0];
    assert BigEndian(0xFF00_0000, 4) == [0xFF, 0, 0, 0];
    assert BigEndian(0xFF_0000_0000, 5) == [0xFF, 0, 0, 0, 0];
    assert BigEndian(0xFF00_0000_0000, 6) == [0xFF, 0, 0, 0, 0, 0];
    assert BigEndian(0xFF_0000_0000_0000, 7) == [0xFF, 0, 0, 0, 0, 0, 0];
  }

  lemma {:induction false} NotBelowZeros(a: Bytes, zeros: Bytes)
    requires |a| == |zeros| && forall i :: 0 <= i < |zeros| ==> zeros[i] == 0
    ensures !Lt(a, zeros)
    decreases |a|
  {
    if a != [] { NotBelowZeros(a[1..], zeros[1..]); }
  }

  lemma {:induction false} FirstByte(v: Value)
    ensures OrderEncode(v) != []
    ensures OrderEncode(v)[0] == 0xFF <==> StartsHigh(v)
  {
    match v
    case Int(i) =>
      var n := FlipSignBit(ToUint64(i));
      assert n == i + TWO_63;
      TopByte(n);
    case _ =>
  }
}
