/** How ORDER BY compares values (engine/internal/executor/setop.go) and key lists
    (engine/internal/executor/window.go). */
module OrderCompare {
  import opened Bytes
  import RC = RowCodec

  /** The number a text parses to, if any; NaN is not a number here. */
  type Numbers = Bytes -> Option<real>

  function CompareBytes(a: Bytes, b: Bytes): int {
    if a == b then 0 else if Lt(a, b) then -1 else 1
  }

  /** `compareDatum`: NULLs last, as numbers when both are numbers, else bytewise. */
  function CompareDatum(num: Numbers, a: RC.Datum, b: RC.Datum): int {
    if a.Null? && b.Null? then 0
    else if a.Null? then 1
    else if b.Null? then -1
    else if num(a.text).Some? && num(b.text).Some? then
      var x, y := num(a.text).value, num(b.text).value;
      if x < y then -1 else if x > y then 1 else 0
    else CompareBytes(a.text, b.text)
  }

  /** `compareOrderKeys` from item `k` on; `desc[k]` for a descending item. */
  function CompareFrom(num: Numbers, desc: seq<bool>, a: seq<RC.Datum>, b: seq<RC.Datum>, k: nat): int
    requires |a| == |b| == |desc| && k <= |desc|
    decreases |desc| - k
  {
    if k == |desc| then 0
    else
      var c := CompareDatum(num, a[k], b[k]);
      if c != 0 then (if desc[k] then -c else c) else CompareFrom(num, desc, a, b, k + 1)
  }

  /** Two numbers whose order as numbers is not that of the texts around a third, which is no number. */
  predicate Crosses(num: Numbers, x: RC.Datum, t: RC.Datum, y: RC.Datum) {
    && x.Text? && t.Text? && y.Text? && num(x.text).Some? && num(t.text).None? && num(y.text).Some?
    && Lt(x.text, t.text) && Lt(t.text, y.text) && num(x.text).value >= num(y.text).value
  }

  /** No arrangement of the three crosses. */
  predicate Uncrossed(num: Numbers, a: RC.Datum, b: RC.Datum, c: RC.Datum) {
    && !Crosses(num, a, b, c) && !Crosses(num, b, c, a) && !Crosses(num, c, a, b)
    && !Crosses(num, c, b, a) && !Crosses(num, b, a, c) && !Crosses(num, a, c, b)
  }

  predicate KeysUncrossed(num: Numbers, a: seq<RC.Datum>, b: seq<RC.Datum>, c: seq<RC.Datum>) {
    |a| == |b| == |c| && forall k :: 0 <= k < |a| ==> Uncrossed(num, a[k], b[k], c[k])
  }

  lemma {:induction false} CompareBytesOrder(a: Bytes, b: Bytes, c: Bytes)
    ensures CompareBytes(a, b) == -CompareBytes(b, a)
    ensures CompareBytes(a, b) <= 0 && CompareBytes(b, c) <= 0 ==> CompareBytes(a, c) <= 0
  {
    LtTotal(a, b);
    LtTotal(b, c);
    LtTotal(a, c);
    if Lt(a, b) && Lt(b, c) { LtTransitive(a, b, c); }
  }

  lemma {:induction false} CompareDatumFlips(num: Numbers, a: RC.Datum, b: RC.Datum)
    ensures CompareDatum(num, a, b) == -CompareDatum(num, b, a) && CompareDatum(num, a, a) == 0
  {
    hide CompareBytes;
    if a.Text? { CompareBytesOrder(a.text, a.text, a.text); }
    if a.Text? && b.Text? { CompareBytesOrder(a.text, b.text, a.text); }
  }

  /** `a` is not after `b`, `b` not after `c`, and yet `a` is after `c`. */
  predicate Intransitive(num: Numbers, a: RC.Datum, b: RC.Datum, c: RC.Datum) {
    CompareDatum(num, a, b) <= 0 && CompareDatum(num, b, c) <= 0 && CompareDatum(num, a, c) > 0
  }

  /** Exactly when three values are out of order: two of them are numbers that cross the third. */
  lemma {:induction false} IntransitiveIff(num: Numbers, a: RC.Datum, b: RC.Datum, c: RC.Datum)
    ensures Intransitive(num, a, b, c) <==>
      || (Crosses(num, a, b, c) && num(a.text).value > num(c.text).value)
      || Crosses(num, b, c, a) || Crosses(num, c, a, b)
  {
    if a.Text? && b.Text? && c.Text? {
      CompareBytesOrder(a.text, b.text, c.text);
      LtTotal(a.text, b.text);
      LtTotal(b.text, c.text);
      LtTotal(a.text, c.text);
    }
  }

  ghost predicate TransitiveOn(num: Numbers, ds: seq<RC.Datum>) {
    forall i, j, k :: 0 <= i < |ds| && 0 <= j < |ds| && 0 <= k < |ds| ==> !Intransitive(num, ds[i], ds[j], ds[k])
  }

  ghost predicate NothingCrosses(num: Numbers, ds: seq<RC.Datum>) {
    forall i, j, k :: 0 <= i < |ds| && 0 <= j < |ds| && 0 <= k < |ds| ==> !Crosses(num, ds[i], ds[j], ds[k])
  }

  /** The comparison orders a column if and only if no two of its numbers cross another text of it. */
  lemma {:induction false} OrdersColumnIff(num: Numbers, ds: seq<RC.Datum>)
    ensures TransitiveOn(num, ds) <==> NothingCrosses(num, ds)
  {
    hide Intransitive, Crosses;
    forall i, j, k | 0 <= i < |ds| && 0 <= j < |ds| && 0 <= k < |ds|
      ensures Intransitive(num, ds[i], ds[j], ds[k]) ==>
        Crosses(num, ds[i], ds[j], ds[k]) || Crosses(num, ds[j], ds[k], ds[i]) || Crosses(num, ds[k], ds[i], ds[j])
      ensures Crosses(num, ds[i], ds[j], ds[k]) ==>
        Intransitive(num, ds[i], ds[j], ds[k]) || Intransitive(num, ds[k], ds[i], ds[j])
    {
      CrossingBreaks(num, ds[i], ds[j], ds[k]);
    }
  }

  lemma {:induction false} CrossingBreaks(num: Numbers, a: RC.Datum, b: RC.Datum, c: RC.Datum)
    ensures Intransitive(num, a, b, c) ==> Crosses(num, a, b, c) || Crosses(num, b, c, a) || Crosses(num, c, a, b)
    ensures Crosses(num, a, b, c) ==> Intransitive(num, a, b, c) || Intransitive(num, c, a, b)
  {
    hide Intransitive;
    IntransitiveIff(num, a, b, c);
    IntransitiveIff(num, c, a, b);
  }

  lemma {:induction false} CompareDatumOrder(num: Numbers, a: RC.Datum, b: RC.Datum, c: RC.Datum)
    requires Uncrossed(num, a, b, c)
    ensures CompareDatum(num, a, b) == -CompareDatum(num, b, a) && CompareDatum(num, a, a) == 0
    ensures CompareDatum(num, a, b) <= 0 && CompareDatum(num, b, c) <= 0 ==> CompareDatum(num, a, c) <= 0
  {
    hide CompareDatum, Crosses;
    CompareDatumFlips(num, a, b);
    IntransitiveIff(num, a, b, c);
  }

  /** Keys that do not cross in any column are totally preordered, descending items included. */
  lemma {:induction false} CompareFromOrder(num: Numbers, desc: seq<bool>, a: seq<RC.Datum>, b: seq<RC.Datum>,
                                            c: seq<RC.Datum>, k: nat)
    requires |a| == |b| == |c| == |desc| && k <= |desc| && KeysUncrossed(num, a, b, c)
    ensures CompareFrom(num, desc, a, b, k) == -CompareFrom(num, desc, b, a, k) && CompareFrom(num, desc, a, a, k) == 0
    ensures CompareFrom(num, desc, a, b, k) <= 0 && CompareFrom(num, desc, b, c, k) <= 0 ==>
      CompareFrom(num, desc, a, c, k) <= 0
    decreases |desc| - k
  {
    hide CompareDatum, Crosses;
    if k < |desc| {
      CompareDatumOrder(num, a[k], b[k], c[k]);
      CompareDatumOrder(num, b[k], c[k], a[k]);
      CompareDatumOrder(num, c[k], a[k], b[k]);
      CompareDatumOrder(num, c[k], b[k], a[k]);
      CompareDatumOrder(num, b[k], a[k], c[k]);
      CompareDatumOrder(num, a[k], c[k], b[k]);
      CompareFromOrder(num, desc, a, b, c, k + 1);
    }
  }

  /** What the comparison of two values says: NULL after every value and equal to NULL, two numbers by value, any
      other two texts bytewise. */
  lemma {:induction false} CompareDatumMeans(num: Numbers, a: RC.Datum, b: RC.Datum)
    ensures a.Text? && b.Null? ==> CompareDatum(num, a, b) < 0 && CompareDatum(num, b, a) > 0
    ensures a.Null? && b.Null? ==> CompareDatum(num, a, b) == 0
    ensures a.Text? && b.Text? && num(a.text).Some? && num(b.text).Some? ==>
      var x, y := num(a.text).value, num(b.text).value;
      && (CompareDatum(num, a, b) < 0 <==> x < y) && (CompareDatum(num, a, b) == 0 <==> x == y)
      && (CompareDatum(num, a, b) > 0 <==> x > y)
    ensures a.Text? && b.Text? && (num(a.text).None? || num(b.text).None?) ==>
      && (CompareDatum(num, a, b) < 0 <==> Lt(a.text, b.text)) && (CompareDatum(num, a, b) == 0 <==> a == b)
      && (CompareDatum(num, a, b) > 0 <==> Lt(b.text, a.text))
  {
    if a.Text? && b.Text? {
      LtTotal(a.text, b.text);
      LtIrreflexive(a.text);
    }
  }

  /** Items before `j` find no difference, item `j` does. */
  ghost predicate FirstDifference(num: Numbers, a: seq<RC.Datum>, b: seq<RC.Datum>, j: nat) {
    && |a| == |b| && j < |a| && CompareDatum(num, a[j], b[j]) != 0
    && forall i :: 0 <= i < j ==> CompareDatum(num, a[i], b[i]) == 0
  }

  lemma {:induction false} CompareFromSkips(num: Numbers, desc: seq<bool>, a: seq<RC.Datum>, b: seq<RC.Datum>, k: nat,
                                            j: nat)
    requires |a| == |b| == |desc| && k <= j <= |desc| && forall i :: k <= i < j ==> CompareDatum(num, a[i], b[i]) == 0
    ensures CompareFrom(num, desc, a, b, k) == CompareFrom(num, desc, a, b, j)
    decreases j - k
  {
    hide CompareDatum;
    if k < j { CompareFromSkips(num, desc, a, b, k + 1, j); }
  }

  /** The first item that finds a difference decides: ascending by the smaller value, descending by the larger;
      rows without a difference are equal. */
  lemma {:induction false} CompareFromMeans(num: Numbers, desc: seq<bool>, a: seq<RC.Datum>, b: seq<RC.Datum>)
    requires |a| == |b| == |desc|
    ensures forall j: nat :: FirstDifference(num, a, b, j) ==>
      && (CompareFrom(num, desc, a, b, 0) < 0 <==>
            if desc[j] then CompareDatum(num, a[j], b[j]) > 0 else CompareDatum(num, a[j], b[j]) < 0)
      && CompareFrom(num, desc, a, b, 0) != 0
    ensures (forall i :: 0 <= i < |a| ==> CompareDatum(num, a[i], b[i]) == 0) ==> CompareFrom(num, desc, a, b, 0) == 0
  {
    hide CompareDatum;
    forall j: nat | FirstDifference(num, a, b, j)
      ensures CompareFrom(num, desc, a, b, 0) < 0 <==>
        if desc[j] then CompareDatum(num, a[j], b[j]) > 0 else CompareDatum(num, a[j], b[j]) < 0
      ensures CompareFrom(num, desc, a, b, 0) != 0
    {
      CompareFromSkips(num, desc, a, b, 0, j);
    }
    if forall i :: 0 <= i < |a| ==> CompareDatum(num, a[i], b[i]) == 0 { CompareFromSkips(num, desc, a, b, 0, |a|); }
  }

  /** On one column of numbers: by value, the other way round when descending. */
  lemma {:induction false} NumberColumn(num: Numbers, desc: bool, a: RC.Datum, b: RC.Datum)
    requires a.Text? && b.Text? && num(a.text).Some? && num(b.text).Some?
    ensures
      var c, x, y := CompareFrom(num, [desc], [a], [b], 0), num(a.text).value, num(b.text).value;
      && (c < 0 <==> if desc then x > y else x < y) && (c == 0 <==> x == y)
  {
    hide CompareDatum, CompareFrom;
    CompareDatumMeans(num, a, b);
    CompareFromMeans(num, [desc], [a], [b]);
    if CompareDatum(num, a, b) != 0 { assert FirstDifference(num, [a], [b], 0); }
  }

  /** Mixing numbers and other texts breaks the order: '2' < '10' < '1a' < '2'. */
  lemma {:induction false} MixedKindsCycle(num: Numbers)
    requires num([50]) == Some(2.0) && num([49, 48]) == Some(10.0) && num([49, 97]).None?
    ensures CompareDatum(num, RC.Text([50]), RC.Text([49, 48])) == -1
    ensures CompareDatum(num, RC.Text([49, 48]), RC.Text([49, 97])) == -1
    ensures CompareDatum(num, RC.Text([49, 97]), RC.Text([50])) == -1
  {
    assert [49, 48][0] == [49, 97][0];
    assert [49, 48][1..] == [48] && [49, 97][1..] == [97];
    assert Lt([48], [97]);
    assert Lt([49, 48], [49, 97]);
    assert Lt([49, 97], [50]);
  }
}

/** Window functions: partitions, the sort inside each, row_number, rank, dense_rank and the running count
    (engine/internal/executor/window.go). */
module Windows {
  import opened Bytes
  import opened BlockKeys
  import opened OrderCompare
  import RC = RowCodec

  const NULL_PART: Bytes := [0, BAR]

  datatype Func = RowNumber | Rank | DenseRank | CountStar | CountArg

  /** A row's PARTITION BY values, ORDER BY values and aggregate argument. */
  datatype WRow = WRow(part: Row, order: seq<RC.Datum>, arg: RC.Datum)

  /** Compares rows by their positions. */
  type Cmp = (nat, nat) -> int

  ghost predicate Preorder(cmp: Cmp, dom: set<nat>) {
    && (forall i :: i in dom ==> cmp(i, i) == 0)
    && (forall i, j :: i in dom && j in dom ==> cmp(i, j) == -cmp(j, i))
    && (forall i, j, k :: i in dom && j in dom && k in dom && cmp(i, j) <= 0 && cmp(j, k) <= 0 ==> cmp(i, k) <= 0)
  }

  /** The order a stable sort produces: by key, then by position. */
  predicate Before(cmp: Cmp, i: nat, j: nat) {
    cmp(i, j) < 0 || (cmp(i, j) == 0 && i < j)
  }

  // ---- What each function means, for row `i` of a partition `p` ----

  ghost function RowNumberOf(cmp: Cmp, p: set<nat>, i: nat): nat {
    1 + |set j | j in p && Before(cmp, j, i)|
  }

  /** One more than the number of strictly smaller rows. */
  ghost function RankOf(cmp: Cmp, p: set<nat>, i: nat): nat {
    1 + |set j | j in p && cmp(j, i) < 0|
  }

  /** The first row of the partition, by position, with its key. */
  ghost predicate IsFirst(cmp: Cmp, p: set<nat>, j: nat) {
    forall k :: k in p && k < j ==> cmp(k, j) != 0
  }

  /** One more than the number of distinct smaller keys. */
  ghost function DenseRankOf(cmp: Cmp, p: set<nat>, i: nat): nat {
    1 + |set j | j in p && cmp(j, i) < 0 && IsFirst(cmp, p, j)|
  }

  /** The counted rows whose key is at most this one's. */
  ghost function CountOf(cmp: Cmp, p: set<nat>, counted: nat -> bool, i: nat): nat {
    |set j | j in p && cmp(j, i) <= 0 && counted(j)|
  }

  ghost function ValueOf(f: Func, cmp: Cmp, p: set<nat>, counted: nat -> bool, i: nat): nat {
    match f
    case RowNumber => RowNumberOf(cmp, p, i)
    case Rank => RankOf(cmp, p, i)
    case DenseRank => DenseRankOf(cmp, p, i)
    case CountStar => CountOf(cmp, p, j => true, i)
    case CountArg => CountOf(cmp, p, counted, i)
  }

  // ---- The stable sort ----

  ghost predicate Sorted(cmp: Cmp, idxs: seq<nat>) {
    forall a, b :: 0 <= a < b < |idxs| ==> Before(cmp, idxs[a], idxs[b])
  }

  predicate Below(idxs: seq<nat>, n: nat) {
    forall a :: 0 <= a < |idxs| ==> idxs[a] < n
  }

  ghost predicate Within(idxs: seq<nat>, dom: set<nat>) {
    forall a :: 0 <= a < |idxs| ==> idxs[a] in dom
  }

  /** Puts `x` after everything not greater. */
  method Insert(cmp: Cmp, l: seq<nat>, x: nat, ghost dom: set<nat>) returns (r: seq<nat>)
    requires Within(l, dom) && x in dom && forall a :: 0 <= a < |l| ==> l[a] < x
    ensures Within(r, dom) && |r| == |l| + 1 && forall y :: y in r <==> y in l || y == x
    ensures multiset(r) == multiset(l) + multiset{x}
    ensures Preorder(cmp, dom) && Sorted(cmp, l) ==> Sorted(cmp, r)
  {
    hide Preorder, Sorted;
    var k := |l|;
    while k > 0 && cmp(l[k - 1], x) > 0
      invariant 0 <= k <= |l|
      invariant forall a :: k <= a < |l| ==> cmp(l[a], x) > 0
    {
      k := k - 1;
    }
    if Preorder(cmp, dom) && Sorted(cmp, l) { InsertSorted(cmp, l, x, k, dom); }
    assert l == l[..k] + l[k..];
    r := l[..k] + [x] + l[k..];
  }

  lemma {:induction false} BelowInserted(cmp: Cmp, l: seq<nat>, x: nat, k: nat, dom: set<nat>, a: nat)
    requires Preorder(cmp, dom) && Within(l, dom) && x in dom && Sorted(cmp, l) && forall b :: 0 <= b < |l| ==> l[b] < x
    requires a < |l| && k <= |l| && (k > 0 ==> cmp(l[k - 1], x) <= 0) && forall b :: k <= b < |l| ==> cmp(l[b], x) > 0
    ensures if a < k then Before(cmp, l[a], x) else Before(cmp, x, l[a])
  {
    if a < k {
      InOrder(cmp, dom, l, a, k - 1);
    }
  }

  lemma {:induction false} InsertSorted(cmp: Cmp, l: seq<nat>, x: nat, k: nat, dom: set<nat>)
    requires Preorder(cmp, dom) && Within(l, dom) && x in dom && Sorted(cmp, l) && forall a :: 0 <= a < |l| ==> l[a] < x
    requires k <= |l| && (k > 0 ==> cmp(l[k - 1], x) <= 0) && forall a :: k <= a < |l| ==> cmp(l[a], x) > 0
    ensures Sorted(cmp, l[..k] + [x] + l[k..])
  {
    hide Preorder, Before;
    forall a | 0 <= a < |l| ensures if a < k then Before(cmp, l[a], x) else Before(cmp, x, l[a]) {
      BelowInserted(cmp, l, x, k, dom, a);
    }
    var r := l[..k] + [x] + l[k..];
    forall a, b | 0 <= a < b < |r| ensures Before(cmp, r[a], r[b]) {
      var i, j := if a < k then a else a - 1, if b < k then b else b - 1;
      assert a != k ==> r[a] == l[i];
      assert b != k ==> r[b] == l[j];
    }
  }

  /** `sort.SliceStable` on positions in ascending order: a rearrangement, and where the comparison orders the
      positions the sorted one, ties by position. */
  method StableSort(cmp: Cmp, idxs: seq<nat>, ghost dom: set<nat>) returns (r: seq<nat>)
    requires Within(idxs, dom) && forall a, b :: 0 <= a < b < |idxs| ==> idxs[a] < idxs[b]
    ensures Within(r, dom) && |r| == |idxs| && forall y :: y in r <==> y in idxs
    ensures multiset(r) == multiset(idxs)
    ensures Preorder(cmp, dom) ==> Sorted(cmp, r)
  {
    hide Preorder, Sorted;
    r := [];
    SortedNone(cmp);
    for i := 0 to |idxs|
      invariant Within(r, dom) && |r| == i && forall y :: y in r <==> y in idxs[..i]
      invariant multiset(r) == multiset(idxs[..i])
      invariant Preorder(cmp, dom) ==> Sorted(cmp, r)
    {
      forall a | 0 <= a < |r| ensures r[a] < idxs[i] {
        assert r[a] in idxs[..i];
      }
      assert idxs[..i + 1] == idxs[..i] + [idxs[i]];
      r := Insert(cmp, r, idxs[i], dom);
    }
    assert idxs[..|idxs|] == idxs;
  }

  lemma {:induction false} SortedNone(cmp: Cmp)
    ensures Sorted(cmp, [])
  {
  }

  // ---- Sets of positions in sorted order ----

  ghost function Members(idxs: seq<nat>): set<nat> {
    set y | y in idxs
  }

  ghost predicate IsPartition(cmp: Cmp, dom: set<nat>, idxs: seq<nat>, p: set<nat>) {
    Preorder(cmp, dom) && Within(idxs, dom) && Sorted(cmp, idxs) && p == Members(idxs)
  }

  lemma {:induction false} Apart(cmp: Cmp, dom: set<nat>, idxs: seq<nat>, a: nat, b: nat)
    requires Preorder(cmp, dom) && Within(idxs, dom) && Sorted(cmp, idxs) && a < |idxs| && b < |idxs| && a != b
    ensures idxs[a] != idxs[b]
  {
    assert if a < b then Before(cmp, idxs[a], idxs[b]) else Before(cmp, idxs[b], idxs[a]);
  }

  lemma {:induction false} PrefixSize(cmp: Cmp, dom: set<nat>, idxs: seq<nat>, k: nat)
    requires Preorder(cmp, dom) && Within(idxs, dom) && Sorted(cmp, idxs) && k <= |idxs|
    ensures |Members(idxs[..k])| == k
  {
    hide Preorder, Sorted, Within;
    if k > 0 {
      PrefixSize(cmp, dom, idxs, k - 1);
      PrefixSnoc(idxs, k - 1);
      forall a | 0 <= a < k - 1 ensures idxs[a] != idxs[k - 1] { Apart(cmp, dom, idxs, a, k - 1); }
      assert idxs[k - 1] !in Members(idxs[..k - 1]);
    } else {
      assert Members(idxs[..0]) == {};
    }
  }

  lemma {:induction false} PrefixSnoc(idxs: seq<nat>, k: nat)
    requires k < |idxs|
    ensures Members(idxs[..k + 1]) == Members(idxs[..k]) + {idxs[k]}
  {
    assert idxs[..k + 1] == idxs[..k] + [idxs[k]];
  }

  /** The rows before a row in the stable order are the ones listed before it. */
  lemma {:induction false} BeforeSet(cmp: Cmp, dom: set<nat>, idxs: seq<nat>, p: set<nat>, pos: nat)
    requires IsPartition(cmp, dom, idxs, p) && pos < |idxs|
    ensures RowNumberOf(cmp, p, idxs[pos]) == pos + 1
  {
    PrefixSize(cmp, dom, idxs, pos);
    forall j ensures j in p && Before(cmp, j, idxs[pos]) <==> j in Members(idxs[..pos]) {
      if j in p && Before(cmp, j, idxs[pos]) {
        var a :| 0 <= a < |idxs| && idxs[a] == j;
        assert a < pos;
        assert idxs[..pos][a] == j;
      }
      if j in Members(idxs[..pos]) {
        var a :| 0 <= a < pos && idxs[..pos][a] == j;
        assert Before(cmp, idxs[a], idxs[pos]);
      }
    }
    assert (set j | j in p && Before(cmp, j, idxs[pos])) == Members(idxs[..pos]);
  }

  /** Position `lo` opens a group of equal keys. */
  predicate Opens(cmp: Cmp, idxs: seq<nat>, lo: nat)
    requires lo < |idxs|
  {
    lo == 0 || cmp(idxs[lo - 1], idxs[lo]) != 0
  }

  lemma {:induction false} InOrder(cmp: Cmp, dom: set<nat>, idxs: seq<nat>, a: nat, b: nat)
    requires Preorder(cmp, dom) && Within(idxs, dom) && Sorted(cmp, idxs) && a <= b < |idxs|
    ensures cmp(idxs[a], idxs[b]) <= 0
  {
    if a < b {
      assert Before(cmp, idxs[a], idxs[b]);
    }
  }

  /** Everything listed before a group is strictly smaller than everything in or after it. */
  lemma {:induction false} GroupSplits(cmp: Cmp, dom: set<nat>, idxs: seq<nat>, lo: nat, a: nat, b: nat)
    requires Preorder(cmp, dom) && Within(idxs, dom) && Sorted(cmp, idxs) && a < lo <= b < |idxs|
    requires Opens(cmp, idxs, lo)
    ensures cmp(idxs[a], idxs[b]) < 0
  {
    InOrder(cmp, dom, idxs, a, lo - 1);
    InOrder(cmp, dom, idxs, lo - 1, lo);
    InOrder(cmp, dom, idxs, lo, b);
    InOrder(cmp, dom, idxs, a, b);
    assert cmp(idxs[lo - 1], idxs[lo]) < 0;
    assert cmp(idxs[lo], idxs[lo - 1]) > 0;
  }

  /** `lo` opens the group of `pos`. */
  ghost predicate GroupOf(cmp: Cmp, idxs: seq<nat>, lo: nat, pos: nat) {
    lo <= pos < |idxs| && Opens(cmp, idxs, lo) && cmp(idxs[lo], idxs[pos]) == 0
  }

  lemma {:induction false} SmallerSet(cmp: Cmp, dom: set<nat>, idxs: seq<nat>, p: set<nat>, lo: nat, pos: nat, j: nat)
    requires IsPartition(cmp, dom, idxs, p) && GroupOf(cmp, idxs, lo, pos)
    ensures j in p && cmp(j, idxs[pos]) < 0 <==> j in Members(idxs[..lo])
  {
    if j in p && cmp(j, idxs[pos]) < 0 {
      var a :| 0 <= a < |idxs| && idxs[a] == j;
      if lo <= a {
        InOrder(cmp, dom, idxs, lo, a);
      }
      assert idxs[..lo][a] == j;
    }
    if j in Members(idxs[..lo]) {
      var a :| 0 <= a < lo && idxs[..lo][a] == j;
      GroupSplits(cmp, dom, idxs, lo, a, pos);
    }
  }

  lemma {:induction false} RankIs(cmp: Cmp, dom: set<nat>, idxs: seq<nat>, p: set<nat>, lo: nat, pos: nat)
    requires IsPartition(cmp, dom, idxs, p) && GroupOf(cmp, idxs, lo, pos)
    ensures RankOf(cmp, p, idxs[pos]) == lo + 1
  {
    hide IsPartition, Members;
    forall j ensures j in p && cmp(j, idxs[pos]) < 0 <==> j in Members(idxs[..lo]) {
      SmallerSet(cmp, dom, idxs, p, lo, pos, j);
    }
    assert (set j | j in p && cmp(j, idxs[pos]) < 0) == Members(idxs[..lo]);
    PartitionPrefix(cmp, dom, idxs, p, lo);
  }

  lemma {:induction false} PartitionPrefix(cmp: Cmp, dom: set<nat>, idxs: seq<nat>, p: set<nat>, k: nat)
    requires IsPartition(cmp, dom, idxs, p) && k <= |idxs|
    ensures |Members(idxs[..k])| == k
  {
    PrefixSize(cmp, dom, idxs, k);
  }

  /** A group is opened by the row of it that comes first by position. */
  lemma {:induction false} OpenersAreFirst(cmp: Cmp, dom: set<nat>, idxs: seq<nat>, p: set<nat>, q: nat)
    requires IsPartition(cmp, dom, idxs, p) && q < |idxs|
    ensures IsFirst(cmp, p, idxs[q]) <==> Opens(cmp, idxs, q)
  {
    if Opens(cmp, idxs, q) {
      forall k | k in p && k < idxs[q] ensures cmp(k, idxs[q]) != 0 {
        var a :| 0 <= a < |idxs| && idxs[a] == k;
        if a < q {
          GroupSplits(cmp, dom, idxs, q, a, q);
        } else {
          assert a == q || Before(cmp, idxs[q], idxs[a]);
        }
      }
    } else {
      assert Before(cmp, idxs[q - 1], idxs[q]);
      assert idxs[q - 1] in p;
    }
  }

  /** The groups opened in the first `k` positions. */
  function Openers(cmp: Cmp, idxs: seq<nat>, k: nat): nat
    requires k <= |idxs|
  {
    if k == 0 then 0 else Openers(cmp, idxs, k - 1) + if Opens(cmp, idxs, k - 1) then 1 else 0
  }

  lemma {:induction false} OpenersCount(cmp: Cmp, dom: set<nat>, idxs: seq<nat>, p: set<nat>, k: nat)
    requires IsPartition(cmp, dom, idxs, p) && k <= |idxs|
    ensures |set j | j in Members(idxs[..k]) && IsFirst(cmp, p, j)| == Openers(cmp, idxs, k)
  {
    hide Preorder, Sorted, IsFirst, Members;
    var first := (j: nat) => IsFirst(cmp, p, j);
    CountedSize(cmp, dom, idxs, first, k);
    OpenersAreCounted(cmp, dom, idxs, p, k);
    assert (set j | j in Members(idxs[..k]) && first(j)) == (set j | j in Members(idxs[..k]) && IsFirst(cmp, p, j));
  }

  lemma {:induction false} OpenersAreCounted(cmp: Cmp, dom: set<nat>, idxs: seq<nat>, p: set<nat>, k: nat)
    requires IsPartition(cmp, dom, idxs, p) && k <= |idxs|
    ensures CountedTo(idxs, (j: nat) => IsFirst(cmp, p, j), k) == Openers(cmp, idxs, k)
  {
    hide IsPartition, IsFirst, Opens;
    if k > 0 {
      OpenersAreCounted(cmp, dom, idxs, p, k - 1);
      OpenersAreFirst(cmp, dom, idxs, p, k - 1);
    }
  }

  lemma {:induction false} DenseRankIs(cmp: Cmp, dom: set<nat>, idxs: seq<nat>, p: set<nat>, lo: nat, pos: nat)
    requires IsPartition(cmp, dom, idxs, p) && GroupOf(cmp, idxs, lo, pos)
    ensures DenseRankOf(cmp, p, idxs[pos]) == Openers(cmp, idxs, lo) + 1
  {
    hide IsPartition, Members, IsFirst, Openers;
    forall j ensures j in p && cmp(j, idxs[pos]) < 0 <==> j in Members(idxs[..lo]) {
      SmallerSet(cmp, dom, idxs, p, lo, pos, j);
    }
    assert (set j | j in p && cmp(j, idxs[pos]) < 0 && IsFirst(cmp, p, j)) ==
      (set j | j in Members(idxs[..lo]) && IsFirst(cmp, p, j));
    OpenersCount(cmp, dom, idxs, p, lo);
  }

  lemma {:induction false} Between(cmp: Cmp, dom: set<nat>, idxs: seq<nat>, a: nat, b: nat, c: nat)
    requires Preorder(cmp, dom) && Within(idxs, dom) && Sorted(cmp, idxs) && a <= b <= c < |idxs|
    requires cmp(idxs[a], idxs[c]) == 0
    ensures cmp(idxs[a], idxs[b]) == 0 && cmp(idxs[b], idxs[c]) == 0
  {
    InOrder(cmp, dom, idxs, a, b);
    InOrder(cmp, dom, idxs, b, c);
    assert cmp(idxs[c], idxs[a]) <= 0;
    assert cmp(idxs[b], idxs[a]) <= 0;
    assert cmp(idxs[c], idxs[b]) <= 0;
  }

  /** No group opens after `lo` up to `pos`. */
  lemma {:induction false} NoOpenersInside(cmp: Cmp, dom: set<nat>, idxs: seq<nat>, lo: nat, pos: nat)
    requires Preorder(cmp, dom) && Within(idxs, dom) && Sorted(cmp, idxs) && GroupOf(cmp, idxs, lo, pos)
    ensures Openers(cmp, idxs, pos + 1) == Openers(cmp, idxs, lo) + 1
    decreases pos - lo
  {
    hide Preorder, Sorted;
    if lo < pos {
      Between(cmp, dom, idxs, lo, pos - 1, pos);
      NoOpenersInside(cmp, dom, idxs, lo, pos - 1);
    }
  }

  // ---- Counting a frame ----

  /** The counted rows among the first `k`. */
  function CountedTo(idxs: seq<nat>, counted: nat -> bool, k: nat): nat
    requires k <= |idxs|
  {
    if k == 0 then 0 else CountedTo(idxs, counted, k - 1) + if counted(idxs[k - 1]) then 1 else 0
  }

  lemma {:induction false} CountedSize(cmp: Cmp, dom: set<nat>, idxs: seq<nat>, counted: nat -> bool, k: nat)
    requires Preorder(cmp, dom) && Within(idxs, dom) && Sorted(cmp, idxs) && k <= |idxs|
    ensures |set j | j in Members(idxs[..k]) && counted(j)| == CountedTo(idxs, counted, k)
  {
    hide Preorder, Sorted, Within, Members;
    if k == 0 {
      NoMembers(idxs);
      assert (set j | j in Members(idxs[..0]) && counted(j)) == {};
    } else {
      CountedSize(cmp, dom, idxs, counted, k - 1);
      LastIsNew(cmp, dom, idxs, k - 1);
      PrefixSnoc(idxs, k - 1);
      AddOne(Members(idxs[..k - 1]), idxs[k - 1], counted);
    }
  }

  lemma {:induction false} NoMembers(idxs: seq<nat>)
    ensures Members(idxs[..0]) == {}
  {
  }

  lemma {:induction false} LastIsNew(cmp: Cmp, dom: set<nat>, idxs: seq<nat>, k: nat)
    requires Preorder(cmp, dom) && Within(idxs, dom) && Sorted(cmp, idxs) && k < |idxs|
    ensures idxs[k] !in Members(idxs[..k])
  {
    hide Preorder, Sorted;
    forall a | 0 <= a < k ensures idxs[a] != idxs[k] { Apart(cmp, dom, idxs, a, k); }
  }

  lemma {:induction false} AddOne(m: set<nat>, x: nat, counted: nat -> bool)
    requires x !in m
    ensures |set j | j in m + {x} && counted(j)| == |set j | j in m && counted(j)| + if counted(x) then 1 else 0
  {
    var s, t := set j | j in m && counted(j), set j | j in m + {x} && counted(j);
    assert t == if counted(x) then s + {x} else s;
  }

  /** The frame of a row ends where its group of equal keys ends. */
  ghost predicate FrameEnds(cmp: Cmp, idxs: seq<nat>, end: nat, pos: nat) {
    && pos < end <= |idxs| && cmp(idxs[pos], idxs[end - 1]) == 0
    && (end < |idxs| ==> cmp(idxs[end - 1], idxs[end]) != 0)
  }

  lemma {:induction false} FrameSet(cmp: Cmp, dom: set<nat>, idxs: seq<nat>, p: set<nat>, end: nat, pos: nat, j: nat)
    requires IsPartition(cmp, dom, idxs, p) && FrameEnds(cmp, idxs, end, pos)
    ensures j in p && cmp(j, idxs[pos]) <= 0 <==> j in Members(idxs[..end])
  {
    if j in p && cmp(j, idxs[pos]) <= 0 {
      var a :| 0 <= a < |idxs| && idxs[a] == j;
      if end <= a {
        GroupSplits(cmp, dom, idxs, end, pos, a);
      }
      assert idxs[..end][a] == j;
    }
    if j in Members(idxs[..end]) {
      var a :| 0 <= a < end && idxs[..end][a] == j;
      InOrder(cmp, dom, idxs, a, end - 1);
      assert cmp(idxs[end - 1], idxs[pos]) <= 0;
    }
  }

  lemma {:induction false} FrameCount(cmp: Cmp, dom: set<nat>, idxs: seq<nat>, p: set<nat>, counted: nat -> bool,
                                      end: nat, pos: nat)
    requires IsPartition(cmp, dom, idxs, p) && FrameEnds(cmp, idxs, end, pos)
    ensures CountOf(cmp, p, counted, idxs[pos]) == CountedTo(idxs, counted, end)
  {
    hide Members, CountedTo;
    forall j ensures j in p && cmp(j, idxs[pos]) <= 0 <==> j in Members(idxs[..end]) {
      FrameSet(cmp, dom, idxs, p, end, pos, j);
    }
    assert (set j | j in p && cmp(j, idxs[pos]) <= 0 && counted(j)) ==
      (set j | j in Members(idxs[..end]) && counted(j));
    CountedSize(cmp, dom, idxs, counted, end);
  }

  // ---- One partition ----

  ghost predicate Filled(f: Func, cmp: Cmp, p: set<nat>, counted: nat -> bool, idxs: seq<nat>, k: nat, vals: seq<nat>)
    requires k <= |idxs| && Below(idxs, |vals|)
  {
    forall q :: 0 <= q < k ==> vals[idxs[q]] == ValueOf(f, cmp, p, counted, idxs[q])
  }

  ghost predicate Untouched(p: set<nat>, before: seq<nat>, vals: seq<nat>) {
    |vals| == |before| && forall i :: 0 <= i < |vals| && i !in p ==> vals[i] == before[i]
  }

  lemma {:induction false} FillOne(f: Func, cmp: Cmp, p: set<nat>, counted: nat -> bool, idxs: seq<nat>, k: nat,
                                   before: seq<nat>, vals: seq<nat>, v: nat)
    requires k < |idxs| && Below(idxs, |vals|) && Filled(f, cmp, p, counted, idxs, k, vals)
    requires Untouched(p, before, vals)
    requires v == ValueOf(f, cmp, p, counted, idxs[k]) && idxs[k] in p
    ensures Filled(f, cmp, p, counted, idxs, k + 1, vals[idxs[k] := v]) && Untouched(p, before, vals[idxs[k] := v])
  {
    hide ValueOf;
  }

  method NumberRows(cmp: Cmp, idxs: seq<nat>, vals: array<nat>, ghost p: set<nat>, ghost counted: nat -> bool)
    requires IsPartition(cmp, p, idxs, p) && Below(idxs, vals.Length)
    modifies vals
    ensures Filled(RowNumber, cmp, p, counted, idxs, |idxs|, vals[..]) && Untouched(p, old(vals[..]), vals[..])
  {
    hide IsPartition, RowNumberOf;
    PartitionBelow(cmp, p, idxs, p);
    for pos := 0 to |idxs|
      invariant Filled(RowNumber, cmp, p, counted, idxs, pos, vals[..]) && Untouched(p, old(vals[..]), vals[..])
    {
      BeforeSet(cmp, p, idxs, p, pos);
      FillOne(RowNumber, cmp, p, counted, idxs, pos, old(vals[..]), vals[..], pos + 1);
      ghost var prior := vals[..];
      vals[idxs[pos]] := pos + 1;
      assert vals[..] == prior[idxs[pos] := pos + 1];
    }
  }

  lemma {:induction false} PartitionBelow(cmp: Cmp, dom: set<nat>, idxs: seq<nat>, p: set<nat>)
    requires IsPartition(cmp, dom, idxs, p)
    ensures forall a :: 0 <= a < |idxs| ==> idxs[a] in p
  {
  }

  /** rank and dense_rank in one pass: a new group of equal keys starts a new rank. */
  method RankRows(dense: bool, cmp: Cmp, idxs: seq<nat>, vals: array<nat>, ghost p: set<nat>,
                  ghost counted: nat -> bool)
    requires IsPartition(cmp, p, idxs, p) && Below(idxs, vals.Length)
    modifies vals
    ensures Filled(if dense then DenseRank else Rank, cmp, p, counted, idxs, |idxs|, vals[..])
    ensures Untouched(p, old(vals[..]), vals[..])
  {
    hide IsPartition, RankOf, DenseRankOf, Openers;
    ghost var f := if dense then DenseRank else Rank;
    PartitionBelow(cmp, p, idxs, p);
    var rank, denseRank := 0, 0;
    ghost var lo := 0;
    NoOpeners(cmp, idxs);
    for pos := 0 to |idxs|
      invariant Filled(f, cmp, p, counted, idxs, pos, vals[..]) && Untouched(p, old(vals[..]), vals[..])
      invariant denseRank == Openers(cmp, idxs, pos)
      invariant pos > 0 ==> GroupOf(cmp, idxs, lo, pos - 1) && rank == lo + 1
    {
      OpenersStep(cmp, idxs, pos);
      GroupGoesOn(cmp, p, idxs, p, lo, pos);
      if pos == 0 || cmp(idxs[pos - 1], idxs[pos]) != 0 {
        denseRank, rank := denseRank + 1, pos + 1;
        lo := pos;
      }
      RankIs(cmp, p, idxs, p, lo, pos);
      DenseRankIs(cmp, p, idxs, p, lo, pos);
      GroupOpeners(cmp, p, idxs, p, lo, pos);
      var v := if dense then denseRank else rank;
      FillOne(f, cmp, p, counted, idxs, pos, old(vals[..]), vals[..], v);
      ghost var prior := vals[..];
      vals[idxs[pos]] := v;
      assert vals[..] == prior[idxs[pos] := v];
    }
  }

  lemma {:induction false} NoOpeners(cmp: Cmp, idxs: seq<nat>)
    ensures Openers(cmp, idxs, 0) == 0
  {
  }

  lemma {:induction false} OpenersStep(cmp: Cmp, idxs: seq<nat>, pos: nat)
    requires pos < |idxs|
    ensures Openers(cmp, idxs, pos + 1) == Openers(cmp, idxs, pos) + if Opens(cmp, idxs, pos) then 1 else 0
  {
  }

  lemma {:induction false} GroupOpeners(cmp: Cmp, dom: set<nat>, idxs: seq<nat>, p: set<nat>, lo: nat, pos: nat)
    requires IsPartition(cmp, dom, idxs, p) && GroupOf(cmp, idxs, lo, pos)
    ensures Openers(cmp, idxs, pos + 1) == Openers(cmp, idxs, lo) + 1
  {
    NoOpenersInside(cmp, dom, idxs, lo, pos);
  }

  /** Position `pos` continues the group of the one before it, or opens its own. */
  lemma {:induction false} GroupGoesOn(cmp: Cmp, dom: set<nat>, idxs: seq<nat>, p: set<nat>, lo: nat, pos: nat)
    requires IsPartition(cmp, dom, idxs, p) && pos < |idxs| && (pos > 0 ==> GroupOf(cmp, idxs, lo, pos - 1))
    ensures if Opens(cmp, idxs, pos) then GroupOf(cmp, idxs, pos, pos) else GroupOf(cmp, idxs, lo, pos)
  {
    if !Opens(cmp, idxs, pos) {
      InOrder(cmp, dom, idxs, lo, pos);
      assert cmp(idxs[pos], idxs[pos - 1]) <= 0 && cmp(idxs[pos - 1], idxs[lo]) <= 0;
      assert cmp(idxs[pos], idxs[lo]) <= 0;
    }
  }

  /** `aggregateOver` for count, from the start of the partition to `hi`. */
  method CountOver(star: bool, idxs: seq<nat>, counted: nat -> bool, hi: nat) returns (c: nat)
    requires hi <= |idxs|
    ensures c == CountedTo(idxs, if star then (j => true) else counted, hi)
  {
    if star {
      AllCounted(idxs, hi);
      return hi;
    }
    c := 0;
    for i := 0 to hi
      invariant c == CountedTo(idxs, counted, i)
    {
      if counted(idxs[i]) {
        c := c + 1;
      }
    }
  }

  lemma {:induction false} AllCounted(idxs: seq<nat>, k: nat)
    requires k <= |idxs|
    ensures CountedTo(idxs, j => true, k) == k
  {
    if k > 0 {
      AllCounted(idxs, k - 1);
    }
  }

  /** count as a window aggregate: the whole partition without ORDER BY, else the running frame with peers. */
  method CountFrames(star: bool, ordered: bool, cmp: Cmp, idxs: seq<nat>, counted: nat -> bool, vals: array<nat>,
                     ghost p: set<nat>)
    requires IsPartition(cmp, p, idxs, p) && Below(idxs, vals.Length)
    requires !ordered ==> forall a, b :: 0 <= a < |idxs| && 0 <= b < |idxs| ==> cmp(idxs[a], idxs[b]) == 0
    modifies vals
    ensures Filled(if star then CountStar else CountArg, cmp, p, counted, idxs, |idxs|, vals[..])
    ensures Untouched(p, old(vals[..]), vals[..])
  {
    hide IsPartition, CountOf, CountedTo;
    ghost var f := if star then CountStar else CountArg;
    PartitionBelow(cmp, p, idxs, p);
    var pos := 0;
    while pos < |idxs|
      invariant pos <= |idxs|
      invariant Filled(f, cmp, p, counted, idxs, pos, vals[..]) && Untouched(p, old(vals[..]), vals[..])
    {
      var end := pos + 1;
      if !ordered {
        end := |idxs|;
      }
      SelfEqual(cmp, p, idxs, p, pos);
      while end < |idxs| && cmp(idxs[end - 1], idxs[end]) == 0
        invariant pos < end <= |idxs| && cmp(idxs[pos], idxs[end - 1]) == 0
        invariant Filled(f, cmp, p, counted, idxs, pos, vals[..]) && Untouched(p, old(vals[..]), vals[..])
      {
        EqualGoesOn(cmp, p, idxs, p, pos, end);
        end := end + 1;
      }
      var v := CountOver(star, idxs, counted, end);
      for q := pos to end
        invariant Filled(f, cmp, p, counted, idxs, q, vals[..]) && Untouched(p, old(vals[..]), vals[..])
      {
        FrameOfPeer(cmp, p, idxs, p, pos, q, end);
        FrameCount(cmp, p, idxs, p, if star then (j => true) else counted, end, q);
        FillOne(f, cmp, p, counted, idxs, q, old(vals[..]), vals[..], v);
        ghost var prior := vals[..];
        vals[idxs[q]] := v;
        assert vals[..] == prior[idxs[q] := v];
      }
      pos := end;
    }
  }

  lemma {:induction false} SelfEqual(cmp: Cmp, dom: set<nat>, idxs: seq<nat>, p: set<nat>, pos: nat)
    requires IsPartition(cmp, dom, idxs, p) && pos < |idxs|
    ensures cmp(idxs[pos], idxs[pos]) == 0
  {
  }

  lemma {:induction false} EqualGoesOn(cmp: Cmp, dom: set<nat>, idxs: seq<nat>, p: set<nat>, pos: nat, end: nat)
    requires IsPartition(cmp, dom, idxs, p) && pos < end < |idxs| && cmp(idxs[pos], idxs[end - 1]) == 0
    requires cmp(idxs[end - 1], idxs[end]) == 0
    ensures cmp(idxs[pos], idxs[end]) == 0
  {
    assert cmp(idxs[end], idxs[end - 1]) <= 0 && cmp(idxs[end - 1], idxs[pos]) <= 0;
    assert cmp(idxs[end], idxs[pos]) <= 0;
  }

  lemma {:induction false} FrameOfPeer(cmp: Cmp, dom: set<nat>, idxs: seq<nat>, p: set<nat>, pos: nat, q: nat, end: nat)
    requires IsPartition(cmp, dom, idxs, p) && FrameEnds(cmp, idxs, end, pos) && pos <= q < end
    ensures FrameEnds(cmp, idxs, end, q)
  {
    Between(cmp, dom, idxs, pos, q, end - 1);
  }

  method ComputePartition(f: Func, ordered: bool, cmp: Cmp, idxs: seq<nat>, counted: nat -> bool, vals: array<nat>,
                          ghost p: set<nat>)
    requires IsPartition(cmp, p, idxs, p) && Below(idxs, vals.Length)
    requires !ordered ==> forall a, b :: 0 <= a < |idxs| && 0 <= b < |idxs| ==> cmp(idxs[a], idxs[b]) == 0
    modifies vals
    ensures forall i :: i in p ==> i < vals.Length && vals[i] == ValueOf(f, cmp, p, counted, i)
    ensures Untouched(p, old(vals[..]), vals[..])
  {
    hide ValueOf, Preorder, Sorted;
    match f {
      case RowNumber => NumberRows(cmp, idxs, vals, p, counted);
      case Rank => RankRows(false, cmp, idxs, vals, p, counted);
      case DenseRank => RankRows(true, cmp, idxs, vals, p, counted);
      case CountStar => CountFrames(true, ordered, cmp, idxs, counted, vals, p);
      case CountArg => CountFrames(false, ordered, cmp, idxs, counted, vals, p);
    }
  }

  // ---- All rows ----

  /** The ORDER BY keys are of the width of the clause, and no three rows of a partition cross. */
  ghost predicate RowsOk(num: Numbers, desc: seq<bool>, rows: seq<WRow>) {
    && (forall i :: 0 <= i < |rows| ==> |rows[i].order| == |desc|)
    && (forall i, j, k :: 0 <= i < |rows| && 0 <= j < |rows| && 0 <= k < |rows| ==>
          SamePartition(rows[i], rows[j], rows[k]) ==> KeysUncrossed(num, rows[i].order, rows[j].order, rows[k].order))
  }

  predicate SamePartition(a: WRow, b: WRow, c: WRow) {
    PartKey(a) == PartKey(b) && PartKey(b) == PartKey(c)
  }

  function RowCmp(num: Numbers, desc: seq<bool>, rows: seq<WRow>): Cmp
    requires forall i :: 0 <= i < |rows| ==> |rows[i].order| == |desc|
  {
    (i: nat, j: nat) => if i < |rows| && j < |rows| then CompareFrom(num, desc, rows[i].order, rows[j].order, 0) else 0
  }

  function PartKey(r: WRow): Bytes {
    BlockKey(NULL_PART, r.part)
  }

  ghost function PartOf(rows: seq<WRow>, k: Bytes): set<nat> {
    set j: nat | j < |rows| && PartKey(rows[j]) == k
  }

  function Counted(rows: seq<WRow>): nat -> bool {
    (j: nat) => j < |rows| && rows[j].arg.Text?
  }

  lemma {:induction false} RowCmpPreorder(num: Numbers, desc: seq<bool>, rows: seq<WRow>, key: Bytes)
    requires RowsOk(num, desc, rows)
    ensures Preorder(RowCmp(num, desc, rows), PartOf(rows, key))
    ensures desc == [] ==> forall i: nat, j: nat :: RowCmp(num, desc, rows)(i, j) == 0
  {
    hide CompareFrom, KeysUncrossed, PartKey;
    var cmp := RowCmp(num, desc, rows);
    forall i, j, k | i in PartOf(rows, key) && j in PartOf(rows, key) && k in PartOf(rows, key)
      ensures cmp(i, i) == 0 && cmp(i, j) == -cmp(j, i) && (cmp(i, j) <= 0 && cmp(j, k) <= 0 ==> cmp(i, k) <= 0)
    {
      CompareFromOrder(num, desc, rows[i].order, rows[j].order, rows[k].order, 0);
    }
    if desc == [] {
      forall i: nat, j: nat ensures cmp(i, j) == 0 {
        if i < |rows| && j < |rows| { NoItems(num, rows[i].order, rows[j].order); }
      }
    }
  }

  lemma {:induction false} NoItems(num: Numbers, a: seq<RC.Datum>, b: seq<RC.Datum>)
    requires |a| == |b| == 0
    ensures CompareFrom(num, [], a, b, 0) == 0
  {
  }

  /** Rows listed under a key: the ones with that key, ascending. */
  ghost predicate Lists(rows: seq<WRow>, n: nat, k: Bytes, idxs: seq<nat>) {
    && (forall a, b :: 0 <= a < b < |idxs| ==> idxs[a] < idxs[b])
    && (forall i: nat :: i in idxs <==> i < n && i < |rows| && PartKey(rows[i]) == k)
  }

  method Partition(rows: seq<WRow>) returns (parts: map<Bytes, seq<nat>>)
    ensures forall i :: 0 <= i < |rows| ==> PartKey(rows[i]) in parts
    ensures forall k :: k in parts ==> Lists(rows, |rows|, k, parts[k])
  {
    hide PartKey;
    parts := map[];
    for i := 0 to |rows|
      invariant forall j :: 0 <= j < i ==> PartKey(rows[j]) in parts
      invariant forall k :: k in parts ==> Lists(rows, i, k, parts[k])
    {
      var k := WriteBlockKey(NULL_PART, rows[i].part);
      PartKeyIs(rows[i]);
      var idxs := if k in parts then parts[k] else [];
      assert Lists(rows, i, k, idxs) by { if k !in parts { NotListed(rows, i, k, parts); } }
      ListOne(rows, i, k, idxs);
      forall x | x in parts && x != k ensures Lists(rows, i + 1, x, parts[x]) { ListSame(rows, i, x, parts[x]); }
      parts := parts[k := idxs + [i]];
    }
  }

  lemma {:induction false} PartKeyIs(r: WRow)
    ensures PartKey(r) == BlockKey(NULL_PART, r.part)
  {
  }

  lemma {:induction false} NotListed(rows: seq<WRow>, n: nat, k: Bytes, parts: map<Bytes, seq<nat>>)
    requires n <= |rows| && k !in parts && forall j :: 0 <= j < n ==> PartKey(rows[j]) in parts
    ensures Lists(rows, n, k, [])
  {
    hide PartKey;
  }

  lemma {:induction false} ListOne(rows: seq<WRow>, n: nat, k: Bytes, idxs: seq<nat>)
    requires n < |rows| && PartKey(rows[n]) == k && Lists(rows, n, k, idxs)
    ensures Lists(rows, n + 1, k, idxs + [n])
  {
    hide PartKey;
    forall a | 0 <= a < |idxs| ensures idxs[a] < n { assert idxs[a] in idxs; }
  }

  lemma {:induction false} ListSame(rows: seq<WRow>, n: nat, k: Bytes, idxs: seq<nat>)
    requires n < |rows| && PartKey(rows[n]) != k && Lists(rows, n, k, idxs)
    ensures Lists(rows, n + 1, k, idxs)
  {
    hide PartKey;
  }

  /** `computeOneWindow`: the value of one window function for every row. */
  method ComputeOneWindow(num: Numbers, f: Func, desc: seq<bool>, rows: seq<WRow>) returns (out: seq<nat>)
    requires RowsOk(num, desc, rows)
    ensures |out| == |rows|
    ensures forall i :: 0 <= i < |rows| ==>
      out[i] == ValueOf(f, RowCmp(num, desc, rows), PartOf(rows, PartKey(rows[i])), Counted(rows), i)
    ensures |desc| == 1 && OneNumberColumn(num, rows) ==>
      forall i :: 0 <= i < |rows| ==> Means(num, f, desc[0], rows, i, out[i])
  {
    hide PartKey, ValueOf, RowCmp, Counted, Preorder, OneNumberColumn, Means;
    var n, cmp, counted := |rows|, RowCmp(num, desc, rows), Counted(rows);
    var vals := new nat[n](_ => 0);
    var parts := Partition(rows);
    var todo := parts.Keys;
    while todo != {}
      invariant todo <= parts.Keys
      invariant forall i :: 0 <= i < n && PartKey(rows[i]) !in todo ==>
        vals[i] == ValueOf(f, cmp, PartOf(rows, PartKey(rows[i])), counted, i)
      decreases |todo|
    {
      var k :| k in todo;
      var idxs := parts[k];
      RowCmpPreorder(num, desc, rows, k);
      ListedWithin(rows, k, idxs);
      if |desc| > 0 {
        idxs := StableSort(cmp, idxs, PartOf(rows, k));
      } else {
        AscendingSorted(cmp, idxs);
      }
      ghost var before := vals[..];
      Listed(rows, k, parts[k], idxs);
      ComputePartition(f, |desc| > 0, cmp, idxs, counted, vals, PartOf(rows, k));
      forall i | 0 <= i < n && PartKey(rows[i]) !in todo - {k}
        ensures vals[i] == ValueOf(f, cmp, PartOf(rows, PartKey(rows[i])), counted, i)
      {
        if PartKey(rows[i]) != k {
          assert vals[..][i] == before[i];
        }
      }
      todo := todo - {k};
    }
    out := vals[..];
    if |desc| == 1 && OneNumberColumn(num, rows) {
      assert desc == [desc[0]];
      forall i | 0 <= i < |rows| ensures Means(num, f, desc[0], rows, i, out[i]) {
        WindowMeaning(num, f, desc[0], rows, i);
      }
    }
  }

  // ---- What the values are, said of the rows ----

  /** ORDER BY one column, which holds numbers; PARTITION BY values that their keys tell apart. */
  ghost predicate OneNumberColumn(num: Numbers, rows: seq<WRow>) {
    forall i :: 0 <= i < |rows| ==>
      && Clean(rows[i].part) && |rows[i].order| == 1 && rows[i].order[0].Text? && num(rows[i].order[0].text).Some?
  }

  ghost function NumberAt(num: Numbers, rows: seq<WRow>, i: nat): real
    requires OneNumberColumn(num, rows) && i < |rows|
  {
    num(rows[i].order[0].text).value
  }

  predicate Ahead(desc: bool, x: real, y: real) {
    if desc then x > y else x < y
  }

  /** The rows of the partition whose number comes before that of row `i`. */
  ghost function AheadOf(num: Numbers, desc: bool, rows: seq<WRow>, i: nat): set<nat>
    requires OneNumberColumn(num, rows) && i < |rows|
  {
    set j: nat | j < |rows| && rows[j].part == rows[i].part &&
      Ahead(desc, NumberAt(num, rows, j), NumberAt(num, rows, i))
  }

  /** The rows of the partition with the number of row `i`. */
  ghost function PeersOf(num: Numbers, rows: seq<WRow>, i: nat): set<nat>
    requires OneNumberColumn(num, rows) && i < |rows|
  {
    set j: nat | j < |rows| && rows[j].part == rows[i].part && NumberAt(num, rows, j) == NumberAt(num, rows, i)
  }

  /** row_number counts the rows ahead and the earlier peers; rank the rows ahead; dense_rank the numbers ahead; a
      running count the rows ahead and the peers, count(x) those with a value. */
  ghost predicate Means(num: Numbers, f: Func, desc: bool, rows: seq<WRow>, i: nat, v: nat)
    requires OneNumberColumn(num, rows) && i < |rows|
  {
    var ahead, peers := AheadOf(num, desc, rows, i), PeersOf(num, rows, i);
    match f
    case RowNumber => v == 1 + |ahead| + |set j | j in peers && j < i|
    case Rank => v == 1 + |ahead|
    case DenseRank => v == 1 + |set j | j in ahead :: NumberAt(num, rows, j)|
    case CountStar => v == |ahead| + |peers|
    case CountArg => v == |set j | j in ahead + peers && rows[j].arg.Text?|
  }

  lemma {:induction false} ComparedByNumber(num: Numbers, desc: bool, rows: seq<WRow>, i: nat, j: nat)
    requires OneNumberColumn(num, rows) && i < |rows| && j < |rows|
    ensures var c := RowCmp(num, [desc], rows)(i, j);
      && (c < 0 <==> Ahead(desc, NumberAt(num, rows, i), NumberAt(num, rows, j)))
      && (c == 0 <==> NumberAt(num, rows, i) == NumberAt(num, rows, j))
  {
    hide CompareFrom, CompareDatum, Clean;
    var a, b := rows[i].order, rows[j].order;
    assert a == [a[0]] && b == [b[0]];
    NumberColumn(num, desc, a[0], b[0]);
  }

  lemma {:induction false} PartByValues(num: Numbers, rows: seq<WRow>, i: nat)
    requires OneNumberColumn(num, rows) && i < |rows|
    ensures PartOf(rows, PartKey(rows[i])) == set j: nat | j < |rows| && rows[j].part == rows[i].part
  {
    hide PartKey, Clean;
    PartitionIsEquality(rows, i);
  }

  /** Numbers on one column never cross, so the window is always determined. */
  lemma {:induction false} NumbersDoNotCross(num: Numbers, desc: bool, rows: seq<WRow>)
    requires OneNumberColumn(num, rows)
    ensures RowsOk(num, [desc], rows)
  {
    hide PartKey, Clean;
  }

  /** The rows ahead and the peers are the ones the comparison finds smaller and equal. */
  lemma {:induction false} AheadAndPeers(num: Numbers, desc: bool, rows: seq<WRow>, i: nat)
    requires OneNumberColumn(num, rows) && i < |rows|
    ensures var cmp, p := RowCmp(num, [desc], rows), PartOf(rows, PartKey(rows[i]));
      && AheadOf(num, desc, rows, i) == (set j | j in p && cmp(j, i) < 0)
      && PeersOf(num, rows, i) == (set j | j in p && cmp(j, i) == 0)
  {
    hide RowCmp, PartKey, NumberAt, Clean;
    var cmp := RowCmp(num, [desc], rows);
    PartByValues(num, rows, i);
    forall j: nat | j < |rows|
      ensures cmp(j, i) < 0 <==> Ahead(desc, NumberAt(num, rows, j), NumberAt(num, rows, i))
      ensures cmp(j, i) == 0 <==> NumberAt(num, rows, j) == NumberAt(num, rows, i)
    {
      ComparedByNumber(num, desc, rows, j, i);
    }
  }

  lemma {:induction false} CountedSplits(cmp: Cmp, p: set<nat>, ahead: set<nat>, peers: set<nat>, i: nat)
    requires ahead == (set j | j in p && cmp(j, i) < 0) && peers == (set j | j in p && cmp(j, i) == 0)
    ensures RowNumberOf(cmp, p, i) == 1 + |ahead| + |set j | j in peers && j < i|
    ensures RankOf(cmp, p, i) == 1 + |ahead|
  {
    var earlier := set j | j in peers && j < i;
    assert (set j | j in p && Before(cmp, j, i)) == ahead + earlier;
    DisjointUnion(ahead, earlier);
  }

  lemma {:induction false} AllCountedSplits(cmp: Cmp, p: set<nat>, ahead: set<nat>, peers: set<nat>,
                                            counted: nat -> bool, i: nat)
    requires ahead == (set j | j in p && cmp(j, i) < 0) && peers == (set j | j in p && cmp(j, i) == 0)
    requires forall j :: counted(j)
    ensures CountOf(cmp, p, counted, i) == |ahead| + |peers|
  {
    assert (set j | j in p && cmp(j, i) <= 0 && counted(j)) == ahead + peers;
    DisjointUnion(ahead, peers);
  }

  lemma {:induction false} CountedWithValue(cmp: Cmp, p: set<nat>, ahead: set<nat>, peers: set<nat>, rows: seq<WRow>,
                                            i: nat)
    requires ahead == (set j | j in p && cmp(j, i) < 0) && peers == (set j | j in p && cmp(j, i) == 0)
    requires forall j :: j in p ==> j < |rows|
    ensures CountOf(cmp, p, Counted(rows), i) == |set j | j in ahead + peers && rows[j].arg.Text?|
  {
    assert (set j | j in p && cmp(j, i) <= 0 && Counted(rows)(j)) == set j | j in ahead + peers && rows[j].arg.Text?;
  }

  /** Every window function over one column of numbers, ascending or descending. */
  lemma {:induction false} WindowMeaning(num: Numbers, f: Func, desc: bool, rows: seq<WRow>, i: nat)
    requires OneNumberColumn(num, rows) && i < |rows|
    ensures Means(num, f, desc, rows, i,
                  ValueOf(f, RowCmp(num, [desc], rows), PartOf(rows, PartKey(rows[i])), Counted(rows), i))
  {
    var cmp, p := RowCmp(num, [desc], rows), PartOf(rows, PartKey(rows[i]));
    var ahead, peers := AheadOf(num, desc, rows, i), PeersOf(num, rows, i);
    assert forall j :: j in p ==> j < |rows|;
    hide OneNumberColumn, RowCmp, PartKey, PartOf, NumberAt, AheadOf, PeersOf, RowNumberOf, RankOf, DenseRankOf,
      CountOf, Counted;
    AheadAndPeers(num, desc, rows, i);
    CountedSplits(cmp, p, ahead, peers, i);
    AllCountedSplits(cmp, p, ahead, peers, j => true, i);
    CountedWithValue(cmp, p, ahead, peers, rows, i);
    if f.DenseRank? { DenseRankMeans(num, desc, rows, i); }
  }

  lemma {:induction false} DenseRankMeans(num: Numbers, desc: bool, rows: seq<WRow>, i: nat)
    requires OneNumberColumn(num, rows) && i < |rows|
    ensures DenseRankOf(RowCmp(num, [desc], rows), PartOf(rows, PartKey(rows[i])), i) ==
      1 + |set j | j in AheadOf(num, desc, rows, i) :: NumberAt(num, rows, j)|
  {
    var cmp, p := RowCmp(num, [desc], rows), PartOf(rows, PartKey(rows[i]));
    var ahead := AheadOf(num, desc, rows, i);
    var at: nat -> real := (j: nat) => if j < |rows| then NumberAt(num, rows, j) else 0.0;
    assert (set j | j in ahead :: NumberAt(num, rows, j)) == Values(ahead, at);
    AheadAndPeers(num, desc, rows, i);
    hide RowCmp, PartKey, NumberAt, OneNumberColumn, DenseRankOf, Values;
    forall j, k | j in p && k in p
      ensures cmp(j, k) == 0 <==> at(j) == at(k)
      ensures cmp(j, i) < 0 <==> Ahead(desc, at(j), at(i))
    {
      ComparedByNumber(num, desc, rows, j, k);
      ComparedByNumber(num, desc, rows, j, i);
    }
    FirstsAreValues(cmp, p, ahead, i, at);
  }

  lemma {:induction false} Least(s: set<nat>) returns (m: nat)
    requires s != {}
    ensures m in s && forall k :: k in s ==> m <= k
    decreases |s|
  {
    var x :| x in s;
    m := x;
    if s - {x} != {} {
      var rest := Least(s - {x});
      m := if x < rest then x else rest;
      forall k | k in s ensures m <= k { assert k == x || k in s - {x}; }
    } else {
      assert s == {x};
    }
  }

  ghost function Values(s: set<nat>, at: nat -> real): set<real> {
    set j | j in s :: at(j)
  }

  lemma {:induction false} ImageSize(s: set<nat>, at: nat -> real)
    requires forall j, k :: j in s && k in s && at(j) == at(k) ==> j == k
    ensures |Values(s, at)| == |s|
    decreases |s|
  {
    if s != {} {
      var x :| x in s;
      ImageSize(s - {x}, at);
      var rest := Values(s - {x}, at);
      assert at(x) !in rest;
      assert Values(s, at) == rest + {at(x)};
    } else {
      assert Values(s, at) == {};
    }
  }

  /** The first row of a key that comes before is one of the counted ones. */
  lemma {:induction false} FirstOfKey(cmp: Cmp, p: set<nat>, ahead: set<nat>, at: nat -> real, j: nat) returns (m: nat)
    requires ahead <= p && j in ahead && forall k, l :: k in p && l in p ==> (cmp(k, l) == 0 <==> at(k) == at(l))
    requires forall k, l :: k in p && l in ahead && at(k) == at(l) ==> k in ahead
    ensures m in ahead && at(m) == at(j) && IsFirst(cmp, p, m)
  {
    var same := set k | k in ahead && at(k) == at(j);
    assert j in same;
    m := Least(same);
    forall k | k in p && k < m ensures cmp(k, m) != 0 {
      assert k !in same;
    }
  }

  /** Counting the first row of every key that comes before counts the keys. */
  lemma {:induction false} FirstsAreValues(cmp: Cmp, p: set<nat>, ahead: set<nat>, i: nat, at: nat -> real)
    requires ahead == (set j | j in p && cmp(j, i) < 0)
    requires forall j, k :: j in p && k in p ==> (cmp(j, k) == 0 <==> at(j) == at(k))
    requires forall j, k :: j in p && k in ahead && at(j) == at(k) ==> j in ahead
    ensures DenseRankOf(cmp, p, i) == 1 + |Values(ahead, at)|
  {
    var firsts := set j | j in ahead && IsFirst(cmp, p, j);
    assert firsts == set j | j in p && cmp(j, i) < 0 && IsFirst(cmp, p, j);
    forall j, k | j in firsts && k in firsts && at(j) == at(k) ensures j == k {
      OneFirst(cmp, p, j, k);
    }
    ImageSize(firsts, at);
    FirstsCover(cmp, p, ahead, firsts, at);
  }

  lemma {:induction false} OneFirst(cmp: Cmp, p: set<nat>, j: nat, k: nat)
    requires j in p && k in p && IsFirst(cmp, p, j) && IsFirst(cmp, p, k) && cmp(j, k) == 0 && cmp(k, j) == 0
    ensures j == k
  {
  }

  lemma {:induction false} FirstsCover(cmp: Cmp, p: set<nat>, ahead: set<nat>, firsts: set<nat>, at: nat -> real)
    requires ahead <= p && firsts == set j | j in ahead && IsFirst(cmp, p, j)
    requires forall j, k :: j in p && k in p ==> (cmp(j, k) == 0 <==> at(j) == at(k))
    requires forall j, k :: j in p && k in ahead && at(j) == at(k) ==> j in ahead
    ensures Values(ahead, at) == Values(firsts, at)
  {
    hide IsFirst;
    forall j | j in ahead ensures at(j) in Values(firsts, at) {
      var m := FirstOfKey(cmp, p, ahead, at, j);
      assert m in firsts;
    }
  }

  lemma {:induction false} DisjointUnion(a: set<nat>, b: set<nat>)
    requires a !! b
    ensures |a + b| == |a| + |b|
  {
  }

  lemma {:induction false} ListedWithin(rows: seq<WRow>, k: Bytes, idxs: seq<nat>)
    requires Lists(rows, |rows|, k, idxs)
    ensures Within(idxs, PartOf(rows, k))
    ensures forall a, b :: 0 <= a < b < |idxs| ==> idxs[a] < idxs[b]
  {
    hide PartKey;
    forall a | 0 <= a < |idxs| ensures idxs[a] in PartOf(rows, k) { assert idxs[a] in idxs; }
  }

  lemma {:induction false} AscendingSorted(cmp: Cmp, idxs: seq<nat>)
    requires forall i: nat, j: nat :: cmp(i, j) == 0
    requires forall a, b :: 0 <= a < b < |idxs| ==> idxs[a] < idxs[b]
    ensures Sorted(cmp, idxs)
  {
  }

  lemma {:induction false} Listed(rows: seq<WRow>, k: Bytes, idxs: seq<nat>, sorted: seq<nat>)
    requires Lists(rows, |rows|, k, idxs) && forall y :: y in sorted <==> y in idxs
    ensures PartOf(rows, k) == Members(sorted) && Below(sorted, |rows|)
  {
    hide PartKey;
    forall a | 0 <= a < |sorted| ensures sorted[a] < |rows| { assert sorted[a] in sorted; }
  }

  /** With clean partition values the partition of a row is the rows with its PARTITION BY values. */
  lemma {:induction false} PartitionIsEquality(rows: seq<WRow>, i: nat)
    requires i < |rows| && forall j :: 0 <= j < |rows| ==> Clean(rows[j].part)
    ensures PartOf(rows, PartKey(rows[i])) == set j: nat | j < |rows| && rows[j].part == rows[i].part
  {
    hide Clean, BlockKey;
    forall j: nat | j < |rows| ensures PartKey(rows[j]) == PartKey(rows[i]) <==> rows[j].part == rows[i].part {
      BlockKeyInjective(NULL_PART, rows[j].part, rows[i].part);
    }
  }
}
