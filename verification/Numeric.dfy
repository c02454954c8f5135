/** PostgreSQL's binary numeric format (engine/internal/executor/copy_binary.go): a decimal text is cut into
    base-10000 digits, and back. */
module Numeric {
  import opened Bytes
  import opened Decimal

  const NBASE: nat := 10000
  const POSITIVE: nat := 0x0000
  const NEGATIVE: nat := 0x4000
  const NOT_A_NUMBER: nat := 0xC000
  const DOT: byte := 46
  const MINUS: byte := 45
  const PLUS: byte := 43
  const NAN_TEXT: Bytes := [78, 97, 78]

  // ---- Decimal digits ----

  function Pow10(n: nat): (r: nat)
    ensures r >= 1
  {
    if n == 0 then 1 else 10 * Pow10(n - 1)
  }

  lemma {:induction false} Pow10Add(a: nat, b: nat)
    ensures Pow10(a + b) == Pow10(a) * Pow10(b)
  {
    if b > 0 {
      Pow10Add(a, b - 1);
      assert Pow10(a + b) == 10 * (Pow10(a) * Pow10(b - 1));
    }
  }

  lemma {:induction false} DigitsConcat(p: Bytes, q: Bytes)
    requires AllDigits(p) && AllDigits(q)
    ensures AllDigits(p + q)
  {
  }

  lemma {:induction false} ValueConcat(p: Bytes, q: Bytes)
    requires AllDigits(p) && AllDigits(q)
    ensures AllDigits(p + q) && Value(p + q) == Value(p) * Pow10(|q|) + Value(q)
  {
    hide Value;
    DigitsConcat(p, q);
    if q == [] {
      assert p + q == p;
      ValueNone();
    } else {
      var n := |q| - 1;
      ValueConcat(p, q[..n]);
      ValueSnoc(p + q);
      ValueSnoc(q);
      assert (p + q)[..|p + q| - 1] == p + q[..n];
      Shift(Value(p), Pow10(n), Value(q[..n]), q[n] - 48);
    }
  }

  lemma {:induction false} ValueNone()
    ensures Value([]) == 0
  {
  }

  lemma {:induction false} ValueSnoc(s: Bytes)
    requires AllDigits(s) && s != []
    ensures Value(s) == 10 * Value(s[..|s| - 1]) + (s[|s| - 1] - 48)
  {
  }

  lemma {:induction false} Shift(a: int, b: int, c: int, d: int)
    ensures 10 * (a * b + c) + d == a * (10 * b) + (10 * c + d)
  {
    assert a * (10 * b) == 10 * (a * b);
  }

  lemma {:induction false} ValueBound(s: Bytes)
    requires AllDigits(s)
    ensures Value(s) < Pow10(|s|)
  {
    if s != [] {
      ValueBound(s[..|s| - 1]);
    }
  }

  /** The `k` last decimal digits of `n`, zero-padded. */
  function Digits(n: nat, k: nat): (r: Bytes)
    ensures |r| == k && AllDigits(r)
  {
    if k == 0 then [] else Digits(n / 10, k - 1) + [48 + n % 10]
  }

  lemma {:induction false} DigitsOfValue(s: Bytes)
    requires AllDigits(s)
    ensures Digits(Value(s), |s|) == s
  {
    if s != [] {
      var n := |s| - 1;
      DigitsOfValue(s[..n]);
      assert Value(s) / 10 == Value(s[..n]) && Value(s) % 10 == s[n] - 48;
      assert s == s[..n] + [s[n]];
    }
  }

  function Zeros(n: nat): (r: Bytes)
    ensures |r| == n && AllDigits(r)
  {
    seq(n, i => ZERO)
  }

  lemma {:induction false} ZerosValue(n: nat)
    ensures Value(Zeros(n)) == 0
  {
    if n > 0 {
      ZerosValue(n - 1);
      assert Zeros(n)[..n - 1] == Zeros(n - 1);
    }
  }

  /** Without leading zeros, but never empty. */
  function Strip(s: Bytes): (r: Bytes)
    requires AllDigits(s)
    ensures r != [] && AllDigits(r) && (|r| > 1 ==> r[0] != ZERO)
    decreases |s|
  {
    if s == [] then [ZERO] else if s[0] == ZERO then Strip(s[1..]) else s
  }

  lemma {:induction false} LeadingZero(s: Bytes)
    requires AllDigits(s) && s != [] && s[0] == ZERO
    ensures Value(s[1..]) == Value(s)
  {
    if |s| == 1 {
      assert s[..0] == [] && s[1..] == [];
    } else {
      var n := |s| - 1;
      LeadingZero(s[..n]);
      assert s[1..][..n - 1] == s[..n][1..];
    }
  }

  lemma {:induction false} StripValue(s: Bytes)
    requires AllDigits(s)
    ensures Value(Strip(s)) == Value(s)
    decreases |s|
  {
    if s == [] {
      assert [ZERO][..0] == [];
    } else if s[0] == ZERO {
      LeadingZero(s);
      StripValue(s[1..]);
    }
  }

  lemma {:induction false} Positive(s: Bytes)
    requires AllDigits(s) && s != [] && s[0] != ZERO
    ensures Value(s) > 0
  {
    if |s| == 1 {
      assert s[..0] == [];
    } else {
      Positive(s[..|s| - 1]);
    }
  }

  /** A digit string without leading zeros is the one its value is written as. */
  lemma {:induction false} FormatOfValue(s: Bytes)
    requires AllDigits(s) && s != [] && (|s| > 1 ==> s[0] != ZERO)
    ensures Format(Value(s)) == s
  {
    var n := |s| - 1;
    assert s == s[..n] + [s[n]];
    if n == 0 {
      assert s[..0] == [];
    } else {
      Positive(s[..n]);
      FormatOfValue(s[..n]);
      assert Value(s) / 10 == Value(s[..n]) && Value(s) % 10 == s[n] - 48;
    }
  }

  // ---- The text ----

  /** Sign, digits before the point, digits after it. */
  datatype Parts = Parts(neg: bool, whole: Bytes, frac: Bytes)

  function IndexOf(s: Bytes, c: byte): (i: int)
    ensures -1 <= i < |s|
    ensures i >= 0 ==> s[i] == c && c !in s[..i]
    ensures i == -1 ==> c !in s
  {
    if s == [] then -1
    else if s[0] == c then 0
    else
      var i := IndexOf(s[1..], c);
      assert s == [s[0]] + s[1..];
      assert i >= 0 ==> s[..i + 1] == [s[0]] + s[1..][..i];
      if i < 0 then -1 else i + 1
  }

  function Unsigned(s: Bytes): Bytes {
    if s != [] && (s[0] == MINUS || s[0] == PLUS) then s[1..] else s
  }

  function PartsOf(text: Bytes): Parts {
    var s := TrimSpace(text);
    var body := Unsigned(s);
    var dot := IndexOf(body, DOT);
    var neg := s != [] && s[0] == MINUS;
    if dot >= 0 then Parts(neg, body[..dot], body[dot + 1..]) else Parts(neg, body, [])
  }

  predicate IsNaN(text: Bytes) {
    Lower(TrimSpace(text)) == [110, 97, 110]
  }

  predicate IsDecimal(text: Bytes) {
    AllDigits(PartsOf(text).whole) && AllDigits(PartsOf(text).frac)
  }

  // ---- Base 10000 ----

  function Groups(s: Bytes): (r: seq<nat>)
    requires AllDigits(s) && |s| % 4 == 0
    ensures |r| == |s| / 4 && forall i :: 0 <= i < |r| ==> r[i] < NBASE
  {
    if s == [] then []
    else
      var n := |s| - 4;
      ValueBound(s[n..]);
      assert Pow10(4) == 10 * (10 * (10 * (10 * Pow10(0))));
      Groups(s[..n]) + [Value(s[n..])]
  }

  /** The number a list of base-10000 digits spells. */
  function Number(ds: seq<nat>): nat {
    if ds == [] then 0 else Number(ds[..|ds| - 1]) * NBASE + ds[|ds| - 1]
  }

  lemma {:induction false} GroupsNumber(s: Bytes)
    requires AllDigits(s) && |s| % 4 == 0
    ensures Number(Groups(s)) == Value(s)
  {
    if s != [] {
      var n := |s| - 4;
      GroupsNumber(s[..n]);
      ValueConcat(s[..n], s[n..]);
      assert s == s[..n] + s[n..];
      assert Pow10(4) == 10 * (10 * (10 * (10 * Pow10(0))));
      assert Groups(s)[..|Groups(s)| - 1] == Groups(s[..n]);
    }
  }

  function TrimLeading(ds: seq<nat>): (r: seq<nat>)
    ensures |r| <= |ds| && r == ds[|ds| - |r|..]
    ensures r != [] ==> r[0] != 0
    ensures forall i :: 0 <= i < |ds| - |r| ==> ds[i] == 0
  {
    if ds != [] && ds[0] == 0 then TrimLeading(ds[1..]) else ds
  }

  function TrimTrailing(ds: seq<nat>): (r: seq<nat>)
    ensures |r| <= |ds| && r == ds[..|r|]
    ensures r != [] ==> r[|r| - 1] != 0
    ensures forall i :: |r| <= i < |ds| ==> ds[i] == 0
  {
    if ds != [] && ds[|ds| - 1] == 0 then TrimTrailing(ds[..|ds| - 1]) else ds
  }

  /** The header fields and digits. */
  datatype Packed = Packed(digits: seq<nat>, weight: int, neg: bool, dscale: nat)

  function Padding(n: nat): (r: nat)
    ensures r < 4 && (n + r) % 4 == 0
  {
    (4 - n % 4) % 4
  }

  /** The digit string padded to whole groups on both sides of the point. */
  function Padded(p: Parts): (r: Bytes)
    requires AllDigits(p.whole) && AllDigits(p.frac)
    ensures AllDigits(r) && |r| % 4 == 0
  {
    var whole := if p.whole == [] then [ZERO] else p.whole;
    Zeros(Padding(|whole|)) + whole + p.frac + Zeros(Padding(|p.frac|))
  }

  function WholeGroups(p: Parts): nat {
    var n := if p.whole == [] then 1 else |p.whole|;
    (n + Padding(n)) / 4
  }

  function FracGroups(p: Parts): nat {
    (|p.frac| + Padding(|p.frac|)) / 4
  }

  function Pack(p: Parts): (r: Packed)
    requires AllDigits(p.whole) && AllDigits(p.frac)
  {
    var groups := Groups(Padded(p));
    var lead := TrimLeading(groups);
    var digits := TrimTrailing(lead);
    var weight := WholeGroups(p) - 1 - (|groups| - |lead|);
    Packed(digits, if digits == [] then 0 else weight, p.neg, |p.frac|)
  }

  /** No zero group at either end, digits below the base, and weight 0 for zero. */
  lemma {:induction false} PackShape(p: Parts)
    requires AllDigits(p.whole) && AllDigits(p.frac)
    ensures
      var r := Pack(p);
      && (if r.digits == [] then r.weight == 0 else r.digits[0] != 0 && r.digits[|r.digits| - 1] != 0)
      && (forall i :: 0 <= i < |r.digits| ==> r.digits[i] < NBASE)
  {
    hide Groups, Padded, TrimLeading, TrimTrailing;
    var groups := Groups(Padded(p));
    var lead := TrimLeading(groups);
    var k := |groups| - |lead|;
    assert forall i :: 0 <= i < |lead| ==> lead[i] == groups[k + i];
  }

  // ---- The value ----

  function Pow(n: nat): (r: real)
    ensures r >= 1.0
  {
    if n == 0 then 1.0 else 10000.0 * Pow(n - 1)
  }

  /** 10000 to any power. */
  function Scale(e: int): (r: real)
    ensures r > 0.0
  {
    if e >= 0 then Pow(e) else 1.0 / Pow(-e)
  }

  lemma {:induction false} ScaleStep(e: int)
    ensures Scale(e + 1) == 10000.0 * Scale(e)
  {
    if e < -1 {
      var x := Pow(-e - 1);
      assert Pow(-e) == 10000.0 * x;
      assert 1.0 / x == 10000.0 * (1.0 / (10000.0 * x)) by { Quotient(x); }
    } else if e == -1 {
      assert Pow(1) == 10000.0 * Pow(0);
    }
  }

  lemma {:induction false} Quotient(x: real)
    requires x > 0.0
    ensures 1.0 / x == 10000.0 * (1.0 / (10000.0 * x))
  {
    var y := 1.0 / (10000.0 * x);
    assert y * (10000.0 * x) == 1.0;
    assert (10000.0 * y) * x == 1.0;
  }

  /** The sum of digit times 10000 to the digit's place, most significant place first. */
  function Sum(ds: seq<int>, weight: int): real {
    if ds == [] then 0.0 else Sum(ds[..|ds| - 1], weight) + ds[|ds| - 1] as real * Scale(weight - (|ds| - 1))
  }

  lemma {:induction false} SumIsNumber(ds: seq<nat>, weight: int)
    ensures Sum(ds, weight) == Number(ds) as real * Scale(weight - |ds| + 1)
  {
    hide Scale;
    if ds != [] {
      var n := |ds| - 1;
      SumIsNumber(ds[..n], weight);
      ScaleStep(weight - n);
      var (a, d, x) := (Number(ds[..n]) as real, ds[n] as real, Scale(weight - n));
      assert Sum(ds, weight) == a * (10000.0 * x) + d * x;
      assert a * (10000.0 * x) + d * x == (a * 10000.0 + d) * x;
    }
  }

  lemma {:induction false} NumberLeading(ds: seq<nat>, k: nat)
    requires k <= |ds| && forall i :: 0 <= i < k ==> ds[i] == 0
    ensures Number(ds[k..]) == Number(ds)
  {
    if k == |ds| {
      NumberZero(ds);
    } else if |ds| > 0 {
      var n := |ds| - 1;
      NumberLeading(ds[..n], k);
      assert ds[k..][..|ds[k..]| - 1] == ds[..n][k..];
    }
  }

  lemma {:induction false} NumberZero(ds: seq<nat>)
    requires forall i :: 0 <= i < |ds| ==> ds[i] == 0
    ensures Number(ds) == 0
  {
    if ds != [] {
      NumberZero(ds[..|ds| - 1]);
    }
  }

  lemma {:induction false} SumTrailing(ds: seq<nat>, weight: int, k: nat)
    requires k <= |ds| && forall i :: k <= i < |ds| ==> ds[i] == 0
    ensures Sum(ds[..k], weight) == Sum(ds, weight)
  {
    if k == |ds| {
      assert ds[..k] == ds;
    } else {
      var n := |ds| - 1;
      SumTrailing(ds[..n], weight, k);
      assert ds[..n][..k] == ds[..k];
    }
  }

  lemma {:induction false} SumLeading(ds: seq<nat>, weight: int, k: nat)
    requires k <= |ds| && forall i :: 0 <= i < k ==> ds[i] == 0
    ensures Sum(ds[k..], weight - k) == Sum(ds, weight)
  {
    SumIsNumber(ds, weight);
    SumIsNumber(ds[k..], weight - k);
    NumberLeading(ds, k);
  }

  /** Trimming zero groups does not change the value. */
  lemma {:induction false} PackedSum(p: Parts)
    requires AllDigits(p.whole) && AllDigits(p.frac)
    ensures Sum(Pack(p).digits, Pack(p).weight) == Sum(Groups(Padded(p)), WholeGroups(p) - 1)
  {
    hide Groups, Padded, WholeGroups, Sum;
    var groups := Groups(Padded(p));
    var lead := TrimLeading(groups);
    var digits := TrimTrailing(lead);
    var k := |groups| - |lead|;
    SumLeading(groups, WholeGroups(p) - 1, k);
    SumTrailing(lead, WholeGroups(p) - 1 - k, |digits|);
    SumOfNone(Pack(p).weight, WholeGroups(p) - 1 - k);
  }

  lemma {:induction false} SumOfNone(a: int, b: int)
    ensures Sum([], a) == Sum([], b) == 0.0
  {
  }

  /** The whole text as one integer, the point removed. */
  function Mantissa(p: Parts): nat
    requires AllDigits(p.whole) && AllDigits(p.frac)
  {
    DigitsConcat(p.whole, p.frac);
    Value(p.whole + p.frac)
  }

  lemma {:induction false} PaddedValue(p: Parts)
    requires AllDigits(p.whole) && AllDigits(p.frac)
    ensures Value(Padded(p)) == Mantissa(p) * Pow10(Padding(|p.frac|))
  {
    hide Value, Padding;
    var whole := if p.whole == [] then [ZERO] else p.whole;
    var (a, b) := (Zeros(Padding(|whole|)), Zeros(Padding(|p.frac|)));
    ZerosValue(|a|);
    ZerosValue(|b|);
    ValueConcat(a, whole);
    ValueConcat(a + whole, p.frac);
    ValueConcat(a + whole + p.frac, b);
    ValueConcat(p.whole, p.frac);
    EmptyWhole();
  }

  lemma {:induction false} EmptyWhole()
    ensures Value([]) == 0 && Value([ZERO]) == 0
  {
    assert [ZERO][..0] == [];
  }

  /** 10000 to the n is 10 to the 4n. */
  lemma {:induction false} PowIsPow10(n: nat)
    ensures Pow(n) == Pow10(4 * n) as real
  {
    if n > 0 {
      PowIsPow10(n - 1);
      var k := 4 * n;
      assert Pow10(k) == 10 * Pow10(k - 1) && Pow10(k - 1) == 10 * Pow10(k - 2);
      assert Pow10(k - 2) == 10 * Pow10(k - 3) && Pow10(k - 3) == 10 * Pow10(k - 4);
      assert Pow10(k) == 10000 * Pow10(4 * (n - 1));
    }
  }

  lemma {:induction false} Cancel(m: real, a: real, b: real, s: real)
    requires b > 0.0 && s * (a * b) == m * b
    ensures s * a == m
  {
    assert s * (a * b) == (s * a) * b;
    assert (s * a - m) * b == (s * a) * b - m * b;
    assert (s * a - m) * b == 0.0;
  }

  /** The padded digit string over its groups of the fraction is the mantissa over 10 to the dscale. */
  lemma {:induction false} ScaledMantissa(n: nat, d: nat, pad: nat, fg: nat)
    requires 4 * fg == d + pad
    ensures ((n * Pow10(pad)) as real * Scale(0 - fg)) * Pow10(d) as real == n as real
  {
    hide Pow10, Pow, Scale;
    var m := (n * Pow10(pad)) as real;
    var (a, b, t) := (Pow10(d) as real, Pow10(pad) as real, m * Scale(0 - fg));
    ScaleBack(fg);
    UnitFactor(m, Scale(0 - fg), Pow(fg));
    PowIsPow10(fg);
    Pow10Add(d, pad);
    assert Pow(fg) == a * b;
    assert m == n as real * b;
    Cancel(n as real, a, b, t);
  }

  /** The packed digits hold exactly the decimal value: the mantissa over 10 to the dscale. */
  lemma {:induction false} PackedValue(p: Parts)
    requires AllDigits(p.whole) && AllDigits(p.frac)
    ensures Sum(Pack(p).digits, Pack(p).weight) * Pow10(|p.frac|) as real == Mantissa(p) as real
  {
    hide Pack, Padded, Groups, Sum, Mantissa, Pow10, Number, Scale;
    var groups := Groups(Padded(p));
    PackedSum(p);
    SumIsNumber(groups, WholeGroups(p) - 1);
    GroupsNumber(Padded(p));
    PaddedValue(p);
    PaddedLength(p);
    ScaledMantissa(Mantissa(p), |p.frac|, Padding(|p.frac|), FracGroups(p));
    assert WholeGroups(p) - 1 - |groups| + 1 == 0 - FracGroups(p);
  }

  lemma {:induction false} ScaleBack(n: nat)
    ensures Scale(0 - n) * Pow(n) == 1.0
  {
    if n > 0 {
      var x := Pow(n);
      var y := 1.0 / x;
      assert Scale(0 - n) == y && y * x == 1.0;
    } else {
      PowZero();
    }
  }

  lemma {:induction false} UnitFactor(m: real, y: real, x: real)
    requires y * x == 1.0
    ensures (m * y) * x == m
  {
    SameFactor(y * x, 1.0, m);
    assert (m * y) * x == m * (y * x);
  }

  lemma {:induction false} SameFactor(a: real, b: real, m: real)
    requires a == b
    ensures m * a == m * b
  {
  }

  lemma {:induction false} PowZero()
    ensures Pow(0) == 1.0 && Scale(0) == 1.0
  {
  }

  lemma {:induction false} PaddedLength(p: Parts)
    requires AllDigits(p.whole) && AllDigits(p.frac)
    ensures |Groups(Padded(p))| == WholeGroups(p) + FracGroups(p)
  {
    hide Groups;
  }

  // ---- The wire format ----

  /** Two's complement in 16 bits, and back. */
  function Int16Bytes(v: int): (r: Bytes)
    ensures |r| == 2
  {
    [(v / 256) % 256, v % 256]
  }

  function Uint16At(b: Bytes, i: nat): (r: nat)
    requires i + 2 <= |b|
    ensures r < 65536
  {
    b[i] as int * 256 + b[i + 1]
  }

  function Int16At(b: Bytes, i: nat): (r: int)
    requires i + 2 <= |b|
    ensures -32768 <= r < 32768
  {
    var u := Uint16At(b, i);
    if u < 32768 then u else u - 65536
  }

  lemma {:induction false} Int16RoundTrip(v: int, before: Bytes, after: Bytes)
    requires -32768 <= v < 65536
    ensures v < 32768 ==> Int16At(before + Int16Bytes(v) + after, |before|) == v
    ensures v >= 0 ==> Uint16At(before + Int16Bytes(v) + after, |before|) == v
  {
    var b := before + Int16Bytes(v) + after;
    assert b[|before|] == (v / 256) % 256 && b[|before| + 1] == v % 256;
  }

  function DigitBytes(ds: seq<nat>): (r: Bytes)
    ensures |r| == 2 * |ds|
  {
    if ds == [] then [] else DigitBytes(ds[..|ds| - 1]) + Int16Bytes(ds[|ds| - 1])
  }

  function Header(ndigits: int, weight: int, sign: nat, dscale: int): (r: Bytes)
    ensures |r| == 8
  {
    Int16Bytes(ndigits) + Int16Bytes(weight) + Int16Bytes(sign) + Int16Bytes(dscale)
  }

  function Wire(p: Packed): Bytes {
    Header(|p.digits|, p.weight, if p.neg then NEGATIVE else POSITIVE, p.dscale) + DigitBytes(p.digits)
  }

  /** `encodeCopyNumeric`; None when the text is not a decimal number. */
  function Encode(text: Bytes): Option<Bytes> {
    if IsNaN(text) then Some(Header(0, 0, NOT_A_NUMBER, 0))
    else if IsDecimal(text) then Some(Wire(Pack(PartsOf(text))))
    else None
  }

  /** `big.Rat.FloatString`: rounded to `prec` digits after the point, halves away from zero. */
  function FloatString(x: real, prec: nat): Bytes {
    var n := Rounded(if x < 0.0 then -x else x, prec);
    var (q, r) := DivMod(n, Pow10(prec));
    var text := Fixed(q, r, prec);
    if x < 0.0 then [MINUS] + text else text
  }

  function DivMod(n: nat, d: nat): (r: (nat, nat))
    requires d > 0
    ensures n == r.0 * d + r.1 && r.1 < d
  {
    (n / d, n % d)
  }

  function Rounded(a: real, prec: nat): nat
    requires a >= 0.0
  {
    ProductNonNegative(a, Pow10(prec) as real);
    (a * Pow10(prec) as real + 0.5).Floor
  }

  lemma {:induction false} ProductNonNegative(a: real, b: real)
    requires a >= 0.0 && b >= 0.0
    ensures a * b >= 0.0
  {
  }

  function Fixed(whole: nat, frac: nat, prec: nat): Bytes {
    Format(whole) + if prec > 0 then [DOT] + Digits(frac, prec) else []
  }

  predicate IsZeroDecimal(s: Bytes) {
    forall i :: 0 <= i < |s| ==> s[i] == ZERO || s[i] == DOT
  }

  function DigitsAt(b: Bytes, n: nat): (r: seq<int>)
    requires 8 + 2 * n <= |b|
    ensures |r| == n && forall i :: 0 <= i < n ==> r[i] == Int16At(b, 8 + 2 * i)
  {
    seq(n, i requires 0 <= i < n => Int16At(b, 8 + 2 * i))
  }

  /** `decodeCopyNumeric`; None for a header or digit list that is cut short. */
  function Decode(b: Bytes): Option<Bytes> {
    if |b| < 8 then None
    else
      var (ndigits, weight, sign, dscale) := (Int16At(b, 0), Int16At(b, 2), Uint16At(b, 4), Int16At(b, 6));
      if sign == NOT_A_NUMBER then Some(NAN_TEXT)
      else if ndigits < 0 || 8 + 2 * ndigits > |b| then None
      else
        var out := FloatString(Sum(DigitsAt(b, ndigits), weight), if dscale < 0 then 0 else dscale);
        Some(if sign == NEGATIVE && !IsZeroDecimal(out) then [MINUS] + out else out)
  }

  /** The value without leading zeros, a plus sign, white space or a sign on zero; every fraction digit kept. */
  function Canonical(p: Parts): Bytes
    requires AllDigits(p.whole) && AllDigits(p.frac)
  {
    var body := Strip(p.whole) + if p.frac != [] then [DOT] + p.frac else [];
    if p.neg && !IsZeroDecimal(body) then [MINUS] + body else body
  }

  /** The counts fit the 16-bit header fields. */
  predicate FitsHeader(p: Packed) {
    |p.digits| < 32768 && -32768 <= p.weight < 32768 && p.dscale < 32768
  }

  lemma {:induction false} TrimmedSize(s: Bytes)
    ensures |TrimSpace(s)| <= |s|
    decreases |s|
  {
    if s != [] {
      if IsSpace(s[0]) { TrimmedSize(s[1..]); } else if IsSpace(s[|s| - 1]) { TrimmedSize(s[..|s| - 1]); }
    }
  }

  lemma {:induction false} PartsSize(text: Bytes)
    ensures |PartsOf(text).whole| + |PartsOf(text).frac| <= |text|
  {
    hide TrimSpace, IndexOf, Unsigned;
    TrimmedSize(text);
    assert |Unsigned(TrimSpace(text))| <= |TrimSpace(text)| by { UnsignedSize(TrimSpace(text)); }
  }

  lemma {:induction false} UnsignedSize(s: Bytes)
    ensures |Unsigned(s)| <= |s|
  {
  }

  /** Any decimal text of less than 32768 bytes fits. */
  lemma {:induction false} ShortFits(text: Bytes)
    requires IsDecimal(text) && |text| < 32768
    ensures FitsHeader(Pack(PartsOf(text))) && |Wire(Pack(PartsOf(text)))| < 0x1_0000
  {
    hide Groups, TrimLeading, TrimTrailing, Header, DigitBytes, AllDigits, PartsOf;
    PartsSize(text);
    var p := PartsOf(text);
    assert |Padded(p)| <= |p.whole| + |p.frac| + 7;
  }

  lemma {:induction false} WireDigit(ds: seq<nat>, i: nat)
    requires i < |ds| && forall k :: 0 <= k < |ds| ==> ds[k] < NBASE
    ensures Int16At(DigitBytes(ds), 2 * i) == ds[i]
  {
    hide Int16Bytes, Int16At;
    var n := |ds| - 1;
    if i == n {
      assert DigitBytes(ds) == DigitBytes(ds[..n]) + Int16Bytes(ds[n]) + [];
      Int16RoundTrip(ds[n], DigitBytes(ds[..n]), []);
    } else {
      WireDigit(ds[..n], i);
      Int16Prefix(DigitBytes(ds[..n]), Int16Bytes(ds[n]), 2 * i);
    }
  }

  lemma {:induction false} Int16Prefix(a: Bytes, b: Bytes, i: nat)
    requires i + 2 <= |a|
    ensures Int16At(a + b, i) == Int16At(a, i)
  {
  }

  lemma {:induction false} Int16Suffix(a: Bytes, b: Bytes, i: nat)
    requires i + 2 <= |b|
    ensures Int16At(a + b, |a| + i) == Int16At(b, i)
  {
  }

  lemma {:induction false} HeaderFields(n: int, w: int, sign: nat, d: int, rest: Bytes)
    requires -32768 <= n < 32768 && -32768 <= w < 32768 && sign < 65536 && -32768 <= d < 32768
    ensures
      var b := Header(n, w, sign, d) + rest;
      Int16At(b, 0) == n && Int16At(b, 2) == w && Uint16At(b, 4) == sign && Int16At(b, 6) == d
  {
    hide Int16Bytes, Int16At, Uint16At;
    var (p, q, r, s) := (Int16Bytes(n), Int16Bytes(w), Int16Bytes(sign), Int16Bytes(d));
    var b := Header(n, w, sign, d) + rest;
    assert b == [] + p + (q + r + s + rest) && b == p + q + (r + s + rest);
    assert b == (p + q) + r + (s + rest) && b == (p + q + r) + s + rest;
    Int16RoundTrip(n, [], q + r + s + rest);
    Int16RoundTrip(w, p, r + s + rest);
    Int16RoundTrip(sign, p + q, s + rest);
    Int16RoundTrip(d, p + q + r, rest);
  }

  lemma {:induction false} WireDigits(p: Packed)
    requires forall i :: 0 <= i < |p.digits| ==> p.digits[i] < NBASE
    ensures DigitsAt(Wire(p), |p.digits|) == p.digits
  {
    hide Header, DigitBytes, Int16At;
    var h := Header(|p.digits|, p.weight, if p.neg then NEGATIVE else POSITIVE, p.dscale);
    forall i | 0 <= i < |p.digits| ensures Int16At(Wire(p), 8 + 2 * i) == p.digits[i] {
      WireDigit(p.digits, i);
      Int16Suffix(h, DigitBytes(p.digits), 2 * i);
    }
  }

  /** A mantissa over 10 to the dscale is printed as its own digits. */
  lemma {:induction false} PrintedExactly(p: Parts, x: real)
    requires AllDigits(p.whole) && AllDigits(p.frac) && x >= 0.0
    requires x * Pow10(|p.frac|) as real == Mantissa(p) as real
    ensures FloatString(x, |p.frac|) == Strip(p.whole) + if p.frac != [] then [DOT] + p.frac else []
  {
    hide Value, Pow10, Strip, Digits, Format, DivMod, Mantissa;
    var d := Pow10(|p.frac|);
    ValueBound(p.frac);
    var (n, w, f) := (Mantissa(p), Value(p.whole), Value(p.frac));
    assert n == w * d + f by { MantissaSplits(p); }
    assert Rounded(x, |p.frac|) == n;
    Divide(n, w, f, d);
    StripValue(p.whole);
    FormatOfValue(Strip(p.whole));
    DigitsOfValue(p.frac);
  }

  lemma {:induction false} MantissaSplits(p: Parts)
    requires AllDigits(p.whole) && AllDigits(p.frac)
    ensures Mantissa(p) == Value(p.whole) * Pow10(|p.frac|) + Value(p.frac)
  {
    ValueConcat(p.whole, p.frac);
  }

  lemma {:induction false} Divide(n: nat, w: nat, f: nat, d: nat)
    requires d > 0 && f < d && n == w * d + f
    ensures DivMod(n, d) == (w, f)
  {
    hide DivMod;
    var (q, r) := DivMod(n, d);
    if q > w {
      Multiple(q - w, d);
    } else if q < w {
      Multiple(w - q, d);
    }
  }

  lemma {:induction false} Multiple(k: nat, d: nat)
    requires k >= 1
    ensures k * d >= d
  {
    assert k * d == d + (k - 1) * d;
  }

  lemma {:induction false} SumNonNegative(ds: seq<nat>, weight: int)
    ensures Sum(ds, weight) >= 0.0
  {
    hide Scale;
    if ds != [] {
      SumNonNegative(ds[..|ds| - 1], weight);
    }
  }

  /** Decoding the encoding gives the canonical text: the same value with the same fraction digits. */
  lemma {:induction false} NumericRoundTrip(text: Bytes)
    requires IsDecimal(text) && !IsNaN(text) && FitsHeader(Pack(PartsOf(text)))
    ensures Encode(text).Some? && Decode(Encode(text).value) == Some(Canonical(PartsOf(text)))
  {
    hide PartsOf, Pack, Sum, FloatString, Header, DigitBytes, Int16At, Uint16At, IsZeroDecimal, Strip, Mantissa, Pow10,
      AllDigits;
    var p := PartsOf(text);
    var q := Pack(p);
    PackFields(p);
    PackShape(p);
    PackedValue(p);
    SumNonNegative(q.digits, q.weight);
    HeaderFields(|q.digits|, q.weight, if q.neg then NEGATIVE else POSITIVE, q.dscale, DigitBytes(q.digits));
    WireDigits(q);
    PrintedExactly(p, Sum(q.digits, q.weight));
  }

  lemma {:induction false} PackFields(p: Parts)
    requires AllDigits(p.whole) && AllDigits(p.frac)
    ensures Pack(p).dscale == |p.frac| && Pack(p).neg == p.neg
  {
    hide Groups, Padded;
  }

  lemma {:induction false} NaNRoundTrip(text: Bytes)
    requires IsNaN(text)
    ensures Encode(text).Some? && Decode(Encode(text).value) == Some(NAN_TEXT)
  {
    hide Header, Int16At, Uint16At;
    HeaderFields(0, 0, NOT_A_NUMBER, 0, []);
    assert Header(0, 0, NOT_A_NUMBER, 0) + [] == Header(0, 0, NOT_A_NUMBER, 0);
  }

  // ---- The canonical text ----

  lemma {:induction false} NoSpaceAtEnds(s: Bytes)
    requires s != [] && !IsSpace(s[0]) && !IsSpace(s[|s| - 1])
    ensures TrimSpace(s) == s
  {
  }

  lemma {:induction false} IndexOfSplit(a: Bytes, c: byte, b: Bytes)
    requires c !in a
    ensures IndexOf(a + [c] + b, c) == |a|
  {
    var s := a + [c] + b;
    if a != [] {
      IndexOfSplit(a[1..], c, b);
      assert s[1..] == a[1..] + [c] + b;
    }
  }

  lemma {:induction false} PartsWhen(text: Bytes, body: Bytes, dot: int)
    requires TrimSpace(text) == text && Unsigned(text) == body && IndexOf(body, DOT) == dot
    ensures PartsOf(text) ==
      var neg := text != [] && text[0] == MINUS;
      if dot >= 0 then Parts(neg, body[..dot], body[dot + 1..]) else Parts(neg, body, [])
  {
    hide TrimSpace, IndexOf, Unsigned;
  }

  /** A text that starts and ends with a digit, possibly signed. */
  lemma {:induction false} SignedText(body: Bytes, neg: bool)
    requires body != [] && IsDigit(body[0]) && IsDigit(body[|body| - 1])
    ensures
      var text := if neg then [MINUS] + body else body;
      TrimSpace(text) == text && Unsigned(text) == body && (text[0] == MINUS <==> neg)
  {
    hide TrimSpace;
    var text := if neg then [MINUS] + body else body;
    NoSpaceAtEnds(text);
    assert neg ==> text[1..] == body;
  }

  lemma {:induction false} BodyParts(whole: Bytes, frac: Bytes, neg: bool)
    requires whole != [] && AllDigits(whole) && AllDigits(frac)
    ensures
      var body := whole + if frac != [] then [DOT] + frac else [];
      PartsOf(if neg then [MINUS] + body else body) == Parts(neg, whole, frac)
  {
    hide TrimSpace, IndexOf, PartsOf, Unsigned;
    var body := whole + if frac != [] then [DOT] + frac else [];
    var text := if neg then [MINUS] + body else body;
    assert DOT !in whole;
    SignedText(body, neg);
    if frac != [] {
      IndexOfSplit(whole, DOT, frac);
      assert body == whole + [DOT] + frac;
      PartsWhen(text, body, |whole|);
      assert body[..|whole|] == whole && body[|whole| + 1..] == frac;
    } else {
      assert body == whole;
      PartsWhen(text, body, -1);
    }
  }

  /** The canonical text reads back as the same mantissa and the same number of fraction digits. */
  lemma {:induction false} CanonicalKeepsValue(p: Parts)
    requires AllDigits(p.whole) && AllDigits(p.frac)
    ensures
      var q := PartsOf(Canonical(p));
      && q.whole == Strip(p.whole) && q.frac == p.frac && Mantissa(q) == Mantissa(p)
      && (q.neg <==> p.neg && Mantissa(p) > 0)
  {
    hide PartsOf, Mantissa, Value, Strip;
    var body := Strip(p.whole) + if p.frac != [] then [DOT] + p.frac else [];
    BodyParts(Strip(p.whole), p.frac, p.neg && !IsZeroDecimal(body));
    StripValue(p.whole);
    MantissaSplits(p);
    MantissaSplits(Parts(p.neg, Strip(p.whole), p.frac));
    MantissaSign(p.neg, PartsOf(Canonical(p)).neg, Strip(p.whole), p.frac);
    ZeroBody(p.neg, Strip(p.whole), p.frac);
  }

  lemma {:induction false} MantissaSign(a: bool, b: bool, whole: Bytes, frac: Bytes)
    requires AllDigits(whole) && AllDigits(frac)
    ensures Mantissa(Parts(a, whole, frac)) == Mantissa(Parts(b, whole, frac))
  {
  }

  lemma {:induction false} ZeroBody(neg: bool, whole: Bytes, frac: Bytes)
    requires AllDigits(whole) && AllDigits(frac)
    ensures IsZeroDecimal(whole + if frac != [] then [DOT] + frac else []) <==> Mantissa(Parts(neg, whole, frac)) == 0
  {
    hide Value;
    var body := whole + if frac != [] then [DOT] + frac else [];
    DigitsConcat(whole, frac);
    ZeroValue(whole + frac);
    if IsZeroDecimal(body) {
      forall i | 0 <= i < |whole + frac| ensures (whole + frac)[i] == ZERO {
        assert (whole + frac)[i] == if i < |whole| then body[i] else body[i + 1];
      }
    } else {
      var i :| 0 <= i < |body| && body[i] != ZERO && body[i] != DOT;
      assert (whole + frac)[if i < |whole| then i else i - 1] == body[i];
    }
  }

  lemma {:induction false} ZeroValue(s: Bytes)
    requires AllDigits(s)
    ensures Value(s) == 0 <==> forall i :: 0 <= i < |s| ==> s[i] == ZERO
  {
    if s != [] {
      var n := |s| - 1;
      ZeroValue(s[..n]);
      assert s == s[..n] + [s[n]];
    }
  }

  /** Making a text canonical twice is making it canonical once. */
  lemma {:induction false} CanonicalIsFixed(p: Parts)
    requires AllDigits(p.whole) && AllDigits(p.frac)
    ensures
      var q := PartsOf(Canonical(p));
      AllDigits(q.whole) && AllDigits(q.frac) && Canonical(q) == Canonical(p)
  {
    hide PartsOf, Mantissa, IsZeroDecimal, Strip;
    CanonicalKeepsValue(p);
    StripTwice(p.whole);
    ZeroBody(p.neg, Strip(p.whole), p.frac);
    MantissaSign(p.neg, PartsOf(Canonical(p)).neg, Strip(p.whole), p.frac);
  }

  lemma {:induction false} StripTwice(s: Bytes)
    requires AllDigits(s)
    ensures Strip(Strip(s)) == Strip(s)
  {
    hide Value;
    var r := Strip(s);
    if |r| == 1 && r[0] == ZERO {
      assert r[1..] == [] && r == [ZERO];
    }
  }

  // ---- Texts that are no numbers ----

  /** Digits, points and minus signs. */
  predicate NumberBytes(s: Bytes) {
    forall i :: 0 <= i < |s| ==> IsDigit(s[i]) || s[i] == DOT || s[i] == MINUS
  }

  /** Whatever `FloatString` prints is a decimal number. */
  lemma {:induction false} PrintedIsDecimal(x: real, prec: nat)
    ensures NumberBytes(FloatString(x, prec)) && IsDecimal(FloatString(x, prec))
  {
    hide Format, Digits, DivMod, Rounded, PartsOf;
    var n := Rounded(if x < 0.0 then -x else x, prec);
    var (q, r) := DivMod(n, Pow10(prec));
    BodyParts(Format(q), Digits(r, prec), x < 0.0);
  }

  /** A text that is no number, written as it is, never reads back as itself. */
  lemma {:induction false} NoFallbackRoundTrip(text: Bytes)
    ensures Encode(text).None? ==> Decode(text) != Some(text)
  {
    hide Sum, DigitsAt, PartsOf, IsZeroDecimal, Wire, Pack, FloatString;
    if |text| >= 8 {
      var (ndigits, weight, sign, dscale) := (Int16At(text, 0), Int16At(text, 2), Uint16At(text, 4), Int16At(text, 6));
      if sign != NOT_A_NUMBER && ndigits >= 0 && 8 + 2 * ndigits <= |text| {
        var out := FloatString(Sum(DigitsAt(text, ndigits), weight), if dscale < 0 then 0 else dscale);
        PrintedIsDecimal(Sum(DigitsAt(text, ndigits), weight), if dscale < 0 then 0 else dscale);
        NegativeField(text, out);
      }
    }
  }

  /** The sign field of a negative number holds a byte that no number text has. */
  lemma {:induction false} NegativeField(text: Bytes, out: Bytes)
    requires |text| >= 8 && NumberBytes(out)
    ensures Uint16At(text, 4) == NEGATIVE ==> text != [MINUS] + out && text != out
  {
    if Uint16At(text, 4) == NEGATIVE {
      assert text[4] == 64;
    }
  }

  // ---- The loops ----

  /** `encodeCopyNumeric`. */
  method EncodeNumeric(text: Bytes) returns (r: Option<Bytes>)
    ensures r == Encode(text)
  {
    hide Groups, PartsOf, Header, Padded, WholeGroups, DigitBytes, TrimLeading, TrimTrailing, IsNaN;
    if IsNaN(text) {
      return Some(Header(0, 0, NOT_A_NUMBER, 0));
    }
    var p := PartsOf(text);
    var valid := AreDigits(p.whole + p.frac);
    AllDigitsSplit(p.whole, p.frac);
    if !valid {
      return None;
    }
    var groups := CutGroups(Padded(p));
    var digits, weight := TrimGroups(groups, WholeGroups(p) - 1);
    if digits == [] {
      weight := 0;
    }
    var b := WriteWire(Packed(digits, weight, p.neg, |p.frac|));
    return Some(b);
  }

  method AreDigits(s: Bytes) returns (ok: bool)
    ensures ok <==> AllDigits(s)
  {
    for i := 0 to |s|
      invariant forall k :: 0 <= k < i ==> IsDigit(s[k])
    {
      if !IsDigit(s[i]) {
        return false;
      }
    }
    return true;
  }

  method CutGroups(s: Bytes) returns (groups: seq<nat>)
    requires AllDigits(s) && |s| % 4 == 0
    ensures groups == Groups(s)
  {
    hide Groups, Value;
    groups := [];
    var i := 0;
    GroupsNone(s);
    while i < |s|
      invariant 0 <= i <= |s| && i % 4 == 0 && groups == Groups(s[..i])
    {
      GroupsStep(s, i);
      groups := groups + [Value(s[i..i + 4])];
      i := i + 4;
    }
    assert s[..|s|] == s;
  }

  method WriteWire(p: Packed) returns (b: Bytes)
    ensures b == Wire(p)
  {
    hide Int16Bytes;
    b := Header(|p.digits|, p.weight, if p.neg then NEGATIVE else POSITIVE, p.dscale);
    ghost var h := b;
    for k := 0 to |p.digits|
      invariant b == h + DigitBytes(p.digits[..k])
    {
      DigitBytesStep(p.digits, k);
      b := b + Int16Bytes(p.digits[k]);
    }
    assert p.digits[..|p.digits|] == p.digits;
  }

  /** The two trimming loops: zero groups in front lower the weight, zero groups behind are dropped. */
  method TrimGroups(groups: seq<nat>, top: int) returns (digits: seq<nat>, weight: int)
    ensures digits == TrimTrailing(TrimLeading(groups)) && weight == top - (|groups| - |TrimLeading(groups)|)
  {
    digits, weight := groups, top;
    while digits != [] && digits[0] == 0
      invariant TrimLeading(digits) == TrimLeading(groups) && weight == top - (|groups| - |digits|)
      invariant |digits| <= |groups|
      decreases |digits|
    {
      digits, weight := digits[1..], weight - 1;
    }
    ghost var lead := digits;
    while digits != [] && digits[|digits| - 1] == 0
      invariant TrimTrailing(digits) == TrimTrailing(lead)
      decreases |digits|
    {
      digits := digits[..|digits| - 1];
    }
  }

  lemma {:induction false} AllDigitsSplit(a: Bytes, b: Bytes)
    ensures AllDigits(a + b) <==> AllDigits(a) && AllDigits(b)
  {
    assert forall i :: 0 <= i < |a| ==> a[i] == (a + b)[i];
    assert forall i :: 0 <= i < |b| ==> b[i] == (a + b)[|a| + i];
  }

  lemma {:induction false} GroupsNone(s: Bytes)
    requires AllDigits(s)
    ensures Groups(s[..0]) == []
  {
  }

  lemma {:induction false} GroupsStep(s: Bytes, i: nat)
    requires AllDigits(s) && i % 4 == 0 && i + 4 <= |s|
    ensures Groups(s[..i + 4]) == Groups(s[..i]) + [Value(s[i..i + 4])]
  {
    hide Value;
    assert s[..i + 4][..i] == s[..i] && s[..i + 4][i..] == s[i..i + 4];
  }

  lemma {:induction false} DigitBytesStep(ds: seq<nat>, k: nat)
    requires k < |ds|
    ensures DigitBytes(ds[..k + 1]) == DigitBytes(ds[..k]) + Int16Bytes(ds[k])
  {
    hide Int16Bytes;
    assert ds[..k + 1][..k] == ds[..k];
  }

  /** What digit `i` of the wire form adds. */
  function DigitTerm(b: Bytes, i: nat, weight: int): real
    requires 8 + 2 * i + 2 <= |b|
  {
    Int16At(b, 8 + 2 * i) as real * Scale(weight - i)
  }

  /** The sum of the first `i` digits. */
  ghost function SumTo(b: Bytes, n: nat, i: nat, weight: int): real
    requires 8 + 2 * n <= |b| && i <= n
  {
    Sum(DigitsAt(b, n)[..i], weight)
  }

  lemma {:induction false} SumToEnds(b: Bytes, n: nat, weight: int)
    requires 8 + 2 * n <= |b|
    ensures SumTo(b, n, 0, weight) == 0.0 && SumTo(b, n, n, weight) == Sum(DigitsAt(b, n), weight)
  {
    hide Scale, DigitsAt;
    var digits := DigitsAt(b, n);
    assert digits[..n] == digits;
  }

  lemma {:induction false} SumToStep(b: Bytes, n: nat, i: nat, weight: int)
    requires 8 + 2 * n <= |b| && i < n
    ensures SumTo(b, n, i + 1, weight) == SumTo(b, n, i, weight) + DigitTerm(b, i, weight)
  {
    hide Scale, DigitsAt;
    var digits := DigitsAt(b, n);
    assert digits[..i + 1][..i] == digits[..i] && digits[..i + 1][i] == digits[i];
    assert digits[i] == Int16At(b, 8 + 2 * i);
  }

  /** `decodeCopyNumeric`. */
  method DecodeNumeric(b: Bytes) returns (r: Option<Bytes>)
    ensures r == Decode(b)
  {
    hide FloatString, Int16At, Uint16At, IsZeroDecimal, SumTo, DigitTerm;
    if |b| < 8 {
      return None;
    }
    var ndigits, weight, sign, dscale := Int16At(b, 0), Int16At(b, 2), Uint16At(b, 4), Int16At(b, 6);
    if sign == NOT_A_NUMBER {
      return Some(NAN_TEXT);
    }
    if ndigits < 0 || 8 + 2 * ndigits > |b| {
      return None;
    }
    var rat := 0.0;
    SumToEnds(b, ndigits, weight);
    for i := 0 to ndigits
      invariant rat == SumTo(b, ndigits, i, weight)
    {
      SumToStep(b, ndigits, i, weight);
      rat := rat + DigitTerm(b, i, weight);
    }
    var out := FloatString(rat, if dscale < 0 then 0 else dscale);
    return Some(if sign == NEGATIVE && !IsZeroDecimal(out) then [MINUS] + out else out);
  }
}
