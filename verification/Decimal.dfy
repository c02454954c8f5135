/** Decimal digit strings, as `strconv` writes and reads them. */
module Decimal {
  import opened Bytes

  const ZERO: byte := 48

  predicate IsDigit(c: byte) {
    48 <= c <= 57
  }

  predicate AllDigits(s: Bytes) {
    forall i :: 0 <= i < |s| ==> IsDigit(s[i])
  }

  /** The value of a digit string; 0 for the empty one. */
  function Value(s: Bytes): nat
    requires AllDigits(s)
    decreases |s|
  {
    if s == [] then 0 else 10 * Value(s[..|s| - 1]) + (s[|s| - 1] - 48)
  }

  /** `FormatInt` of a non-negative integer. */
  function Format(n: nat): (r: Bytes)
    ensures r != [] && AllDigits(r)
  {
    if n < 10 then [48 + n] else Format(n / 10) + [48 + n % 10]
  }

  /** `ParseInt`, on the digit strings `Format` writes; anything else reads as 0. */
  function Parse(s: Bytes): nat {
    if AllDigits(s) then Value(s) else 0
  }

  lemma {:induction false} FormatRoundTrip(n: nat)
    ensures Value(Format(n)) == n
  {
    var r := Format(n);
    if n < 10 {
      assert r[..0] == [];
    } else {
      FormatRoundTrip(n / 10);
      assert r[..|r| - 1] == Format(n / 10);
    }
  }

  function TenTo(k: nat): nat {
    if k == 0 then 1 else 10 * TenTo(k - 1)
  }

  lemma {:induction false} TenTo19()
    ensures TenTo(19) == 10_000_000_000_000_000_000
  {
    assert TenTo(3) == 1000;
    assert TenTo(6) == 1000 * 1000;
    assert TenTo(9) == 1000 * 1000 * 1000;
    assert TenTo(12) == 1000 * 1000 * 1000 * 1000;
    assert TenTo(15) == 1000 * 1000 * 1000 * 1000 * 1000;
    assert TenTo(18) == 1000 * 1000 * 1000 * 1000 * 1000 * 1000;
  }

  /** A number below a power of ten has no more digits than its exponent. */
  lemma {:induction false} FormatLength(n: nat, k: nat)
    requires 0 < k && n < TenTo(k)
    ensures |Format(n)| <= k
  {
    if n >= 10 { FormatLength(n / 10, k - 1); }
  }

  /** ASCII white space, as `strings.TrimSpace` removes it. */
  predicate IsSpace(c: byte) {
    c == 32 || 9 <= c <= 13
  }

  function TrimSpace(s: Bytes): (r: Bytes)
    ensures r == [] || (!IsSpace(r[0]) && !IsSpace(r[|r| - 1]))
    decreases |s|
  {
    if s == [] then [] else if IsSpace(s[0]) then TrimSpace(s[1..])
    else if IsSpace(s[|s| - 1]) then TrimSpace(s[..|s| - 1]) else s
  }

  /** `ParseInt(s, 10, 64)`: None for a syntax error or a value outside int64. */
  function ParseInt64(s: Bytes): (r: Option<int>)
    ensures r.Some? ==> -0x8000_0000_0000_0000 <= r.value < 0x8000_0000_0000_0000
  {
    var neg := s != [] && s[0] == 45;
    var digits := if s != [] && (s[0] == 45 || s[0] == 43) then s[1..] else s;
    if digits == [] || !AllDigits(digits) then None
    else
      var n: int := Value(digits);
      var v := if neg then -n else n;
      if -0x8000_0000_0000_0000 <= v < 0x8000_0000_0000_0000 then Some(v) else None
  }

  /** `isTruthy`, on the trimmed lower-cased text. */
  predicate IsTruthy(s: Bytes) {
    Lower(TrimSpace(s)) in {[116], [116, 114, 117, 101], [49], [121], [121, 101, 115], [111, 110]}
  }

  /** t, TRUE, on, yes and 1 are true, white space around them or not; f, no and the empty text are not. */
  lemma {:induction false} TrueAndFalse()
    ensures IsTruthy([116]) && IsTruthy([84, 82, 85, 69]) && IsTruthy([111, 110]) && IsTruthy([121, 101, 115])
    ensures IsTruthy([49]) && IsTruthy([32, 89]) && !IsTruthy([102]) && !IsTruthy([110, 111]) && !IsTruthy([])
  {
    assert Lower([116]) == [116] && Lower([84, 82, 85, 69]) == [116, 114, 117, 101] && Lower([111, 110]) == [111, 110];
    assert Lower([121, 101, 115]) == [121, 101, 115] && Lower([49]) == [49] && Lower([89]) == [121];
    assert Lower([102]) == [102] && Lower([110, 111]) == [110, 111] && Lower([]) == [];
    assert [32, 89][1..] == [89] && TrimSpace([32, 89]) == [89];
  }

  function Lower(s: Bytes): Bytes {
    seq(|s|, i requires 0 <= i < |s| => if 65 <= s[i] <= 90 then s[i] + 32 else s[i])
  }

  /** `FormatInt` of any integer. */
  function FormatSigned(v: int): (r: Bytes)
    ensures r != []
  {
    if v < 0 then [45] + Format(-v) else Format(v)
  }

  lemma {:induction false} SignedShape(v: int)
    ensures var r := FormatSigned(v);
      && (v >= 0 ==> AllDigits(r) && Value(r) == v)
      && (v < 0 ==> r[0] == 45 && r[1..] != [] && AllDigits(r[1..]) && Value(r[1..]) == -v)
  {
    hide Format, Value;
    FormatRoundTrip(if v < 0 then -v else v);
    if v < 0 { assert FormatSigned(v)[1..] == Format(-v); }
  }

  lemma {:induction false} TrimmedSigned(v: int)
    ensures TrimSpace(FormatSigned(v)) == FormatSigned(v)
  {
    hide Format;
    SignedShape(v);
    var r := FormatSigned(v);
    assert v < 0 ==> r[1..][|r| - 2] == r[|r| - 1];
  }

  /** Every int64 is read back from its own text, white space around it or not. */
  lemma {:induction false} SignedRoundTrip(v: int)
    requires -0x8000_0000_0000_0000 <= v < 0x8000_0000_0000_0000
    ensures ParseInt64(TrimSpace(FormatSigned(v))) == Some(v)
  {
    hide FormatSigned, Value, TrimSpace;
    TrimmedSigned(v);
    SignedShape(v);
  }
}
