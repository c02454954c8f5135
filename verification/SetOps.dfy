/** UNION, INTERSECT and EXCEPT, with and without ALL, and the ORDER BY, OFFSET and LIMIT on their result
    (engine/internal/executor/setop.go), and DISTINCT (engine/internal/executor/join.go). */
module SetOps {
  import opened Bytes
  import opened BlockKeys
  import opened OrderCompare
  import RC = RowCodec
  import W = Windows

  const NULL_BLOCK: Bytes := [0, 78, BAR]

  function Key(r: Row): Bytes {
    BlockKey(NULL_BLOCK, r)
  }

  /** How many rows have the key. */
  function Count(rows: seq<Row>, k: Bytes): nat {
    if rows == [] then 0 else Count(rows[..|rows| - 1], k) + if Key(rows[|rows| - 1]) == k then 1 else 0
  }

  function Get(rc: map<Bytes, nat>, k: Bytes): nat {
    if k in rc then rc[k] else 0
  }

  lemma {:induction false} CountSnoc(rows: seq<Row>, n: nat, k: Bytes)
    requires n < |rows|
    ensures Count(rows[..n + 1], k) == Count(rows[..n], k) + if Key(rows[n]) == k then 1 else 0
  {
    assert rows[..n + 1][..n] == rows[..n];
  }

  lemma {:induction false} CountNone(rows: seq<Row>)
    ensures forall k :: Count(rows[..0], k) == 0
  {
  }

  method CountKeys(rows: seq<Row>) returns (rc: map<Bytes, nat>)
    ensures forall k :: Get(rc, k) == Count(rows, k)
  {
    hide Key, Count;
    rc := map[];
    assert forall k :: Count(rows[..0], k) == 0 by { CountNone(rows); }
    for i := 0 to |rows|
      invariant forall k :: Get(rc, k) == Count(rows[..i], k)
    {
      var k := WriteBlockKey(NULL_BLOCK, rows[i]);
      KeyIs(rows[i]);
      ghost var before := rc;
      rc := rc[k := Get(rc, k) + 1];
      forall x ensures Get(rc, x) == Count(rows[..i + 1], x) {
        CountSnoc(rows, i, x);
        assert Get(before, x) == Count(rows[..i], x);
      }
    }
    assert rows[..|rows|] == rows;
  }

  lemma {:induction false} KeyIs(r: Row)
    ensures BlockKey(NULL_BLOCK, r) == Key(r)
  {
  }

  // ---- Which left rows are kept ----

  /** INTERSECT keeps row `i`: with ALL while copies are left on the right, else the first of each. */
  predicate InIntersect(left: seq<Row>, right: seq<Row>, all: bool, i: nat)
    requires i < |left|
  {
    var before, there := Count(left[..i], Key(left[i])), Count(right, Key(left[i]));
    if all then before < there else before == 0 && there > 0
  }

  /** EXCEPT keeps row `i`: with ALL once the right copies are used up, else the first of each absent one. */
  predicate InExcept(left: seq<Row>, right: seq<Row>, all: bool, i: nat)
    requires i < |left|
  {
    var before, there := Count(left[..i], Key(left[i])), Count(right, Key(left[i]));
    if all then before >= there else before == 0 && there == 0
  }

  function Intersect(left: seq<Row>, right: seq<Row>, all: bool, n: nat): seq<Row>
    requires n <= |left|
  {
    if n == 0 then []
    else Intersect(left, right, all, n - 1) + if InIntersect(left, right, all, n - 1) then [left[n - 1]] else []
  }

  function Except(left: seq<Row>, right: seq<Row>, all: bool, n: nat): seq<Row>
    requires n <= |left|
  {
    if n == 0 then []
    else Except(left, right, all, n - 1) + if InExcept(left, right, all, n - 1) then [left[n - 1]] else []
  }

  /** Truncated difference. */
  function Minus(a: nat, b: nat): nat {
    if a > b then a - b else 0
  }

  function Min(a: nat, b: nat): nat {
    if a < b then a else b
  }

  method IntersectRows(left: seq<Row>, right: seq<Row>, all: bool) returns (out: seq<Row>)
    ensures out == Intersect(left, right, all, |left|)
  {
    hide Key, Count;
    var rc: map<Bytes, nat> := CountKeys(right);
    out := [];
    var seen: set<Bytes> := {};
    CountNone(left);
    for i := 0 to |left|
      invariant out == Intersect(left, right, all, i)
      invariant forall k :: Get(rc, k) == if all then Minus(Count(right, k), Count(left[..i], k)) else Count(right, k)
      invariant !all ==> forall k :: k in seen <==> Count(left[..i], k) > 0 && Count(right, k) > 0
    {
      KeyIs(left[i]);
      var k := WriteBlockKey(NULL_BLOCK, left[i]);
      forall x ensures Count(left[..i + 1], x) == Count(left[..i], x) + if Key(left[i]) == x then 1 else 0 {
        CountSnoc(left, i, x);
      }
      if Get(rc, k) == 0 {
        continue;
      }
      if all {
        rc := rc[k := Get(rc, k) - 1];
        out := out + [left[i]];
      } else if k !in seen {
        seen := seen + {k};
        out := out + [left[i]];
      }
    }
  }

  method ExceptRows(left: seq<Row>, right: seq<Row>, all: bool) returns (out: seq<Row>)
    ensures out == Except(left, right, all, |left|)
  {
    hide Key, Count;
    var rc: map<Bytes, nat> := CountKeys(right);
    out := [];
    var seen: set<Bytes> := {};
    CountNone(left);
    for i := 0 to |left|
      invariant out == Except(left, right, all, i)
      invariant forall k :: Get(rc, k) == if all then Minus(Count(right, k), Count(left[..i], k)) else Count(right, k)
      invariant !all ==> forall k :: k in seen <==> Count(left[..i], k) > 0 && Count(right, k) == 0
    {
      KeyIs(left[i]);
      var k := WriteBlockKey(NULL_BLOCK, left[i]);
      forall x ensures Count(left[..i + 1], x) == Count(left[..i], x) + if Key(left[i]) == x then 1 else 0 {
        CountSnoc(left, i, x);
      }
      if all {
        if Get(rc, k) > 0 {
          rc := rc[k := Get(rc, k) - 1];
          continue;
        }
        out := out + [left[i]];
      } else {
        if Get(rc, k) > 0 || k in seen {
          continue;
        }
        seen := seen + {k};
        out := out + [left[i]];
      }
    }
  }

  /** The first row of each key, in order. */
  function Dedup(rows: seq<Row>, n: nat): seq<Row>
    requires n <= |rows|
  {
    if n == 0 then []
    else Dedup(rows, n - 1) + if Count(rows[..n - 1], Key(rows[n - 1])) == 0 then [rows[n - 1]] else []
  }

  method DedupRows(rows: seq<Row>) returns (out: seq<Row>)
    ensures out == Dedup(rows, |rows|)
  {
    hide Key, Count;
    out := [];
    var seen: set<Bytes> := {};
    CountNone(rows);
    for i := 0 to |rows|
      invariant out == Dedup(rows, i)
      invariant forall k :: k in seen <==> Count(rows[..i], k) > 0
    {
      KeyIs(rows[i]);
      var k := WriteBlockKey(NULL_BLOCK, rows[i]);
      forall x ensures Count(rows[..i + 1], x) == Count(rows[..i], x) + if Key(rows[i]) == x then 1 else 0 {
        CountSnoc(rows, i, x);
      }
      if k in seen {
        continue;
      }
      seen := seen + {k};
      out := out + [rows[i]];
    }
  }

  // ---- Multiplicities ----

  lemma {:induction false} CountAppend(rows: seq<Row>, r: Row, k: Bytes)
    ensures Count(rows + [r], k) == Count(rows, k) + if Key(r) == k then 1 else 0
  {
    hide Key;
    assert (rows + [r])[..|rows|] == rows;
  }

  lemma {:induction false} IntersectCounts(left: seq<Row>, right: seq<Row>, all: bool, n: nat, k: Bytes)
    requires n <= |left|
    ensures Count(Intersect(left, right, all, n), k) ==
      Min(if all then Count(right, k) else Min(1, Count(right, k)), Count(left[..n], k))
  {
    hide Key, Count;
    CountNone(left);
    assert left[..0] == [];
    if n > 0 {
      IntersectCounts(left, right, all, n - 1, k);
      CountSnoc(left, n - 1, k);
      CountAppend(Intersect(left, right, all, n - 1), left[n - 1], k);
      assert Intersect(left, right, all, n - 1) + [] == Intersect(left, right, all, n - 1);
    }
  }

  lemma {:induction false} ExceptCounts(left: seq<Row>, right: seq<Row>, all: bool, n: nat, k: Bytes)
    requires n <= |left|
    ensures Count(Except(left, right, all, n), k) ==
      if all then Minus(Count(left[..n], k), Count(right, k))
      else if Count(right, k) > 0 then 0
      else Min(1, Count(left[..n], k))
  {
    hide Key, Count;
    CountNone(left);
    assert left[..0] == [];
    if n > 0 {
      ExceptCounts(left, right, all, n - 1, k);
      CountSnoc(left, n - 1, k);
      CountAppend(Except(left, right, all, n - 1), left[n - 1], k);
      assert Except(left, right, all, n - 1) + [] == Except(left, right, all, n - 1);
    }
  }

  lemma {:induction false} DedupCounts(rows: seq<Row>, n: nat, k: Bytes)
    requires n <= |rows|
    ensures Count(Dedup(rows, n), k) == Min(1, Count(rows[..n], k))
  {
    hide Key;
    if n > 0 {
      DedupCounts(rows, n - 1, k);
      CountSnoc(rows, n - 1, k);
      CountAppend(Dedup(rows, n - 1), rows[n - 1], k);
      assert Dedup(rows, n - 1) + [] == Dedup(rows, n - 1);
    }
  }

  /** Clean rows: counting keys is counting rows. */
  lemma {:induction false} CountIsMultiplicity(rows: seq<Row>, r: Row)
    requires AllClean(rows) && Clean(r)
    ensures Count(rows, Key(r)) == multiset(rows)[r]
  {
    hide Clean, BlockKey;
    if rows != [] {
      var n := |rows| - 1;
      CountIsMultiplicity(rows[..n], r);
      BlockKeyInjective(NULL_BLOCK, rows[n], r);
      assert rows == rows[..n] + [rows[n]];
    }
  }

  lemma {:induction false} PartsClean(left: seq<Row>, right: seq<Row>, all: bool, n: nat)
    requires AllClean(left) && n <= |left|
    ensures AllClean(Intersect(left, right, all, n)) && AllClean(Except(left, right, all, n))
    ensures AllClean(Dedup(left, n))
  {
    hide Clean, Key, Count;
    if n > 0 {
      PartsClean(left, right, all, n - 1);
    }
  }

  /** INTERSECT ALL gives the smaller of the two multiplicities, INTERSECT each common row once. */
  lemma {:induction false} IntersectMultiplicity(left: seq<Row>, right: seq<Row>, r: Row)
    requires AllClean(left) && AllClean(right) && Clean(r)
    ensures multiset(Intersect(left, right, true, |left|))[r] == Min(multiset(left)[r], multiset(right)[r])
    ensures multiset(Intersect(left, right, false, |left|))[r] == if r in left && r in right then 1 else 0
  {
    hide AllClean, Clean, Key, Count, Intersect, Except, Dedup;
    var n := |left|;
    assert left[..n] == left;
    forall all ensures multiset(Intersect(left, right, all, n))[r] == Count(Intersect(left, right, all, n), Key(r)) {
      PartsClean(left, right, all, n);
      CountIsMultiplicity(Intersect(left, right, all, n), r);
    }
    IntersectCounts(left, right, true, n, Key(r));
    IntersectCounts(left, right, false, n, Key(r));
    CountIsMultiplicity(left, r);
    CountIsMultiplicity(right, r);
  }

  /** EXCEPT ALL gives the truncated difference, EXCEPT each row absent on the right once. */
  lemma {:induction false} ExceptMultiplicity(left: seq<Row>, right: seq<Row>, r: Row)
    requires AllClean(left) && AllClean(right) && Clean(r)
    ensures multiset(Except(left, right, true, |left|))[r] == Minus(multiset(left)[r], multiset(right)[r])
    ensures multiset(Except(left, right, false, |left|))[r] == if r in left && r !in right then 1 else 0
  {
    hide AllClean, Clean, Key, Count, Intersect, Except, Dedup;
    var n := |left|;
    assert left[..n] == left;
    forall all ensures multiset(Except(left, right, all, n))[r] == Count(Except(left, right, all, n), Key(r)) {
      PartsClean(left, right, all, n);
      CountIsMultiplicity(Except(left, right, all, n), r);
    }
    ExceptCounts(left, right, true, n, Key(r));
    ExceptCounts(left, right, false, n, Key(r));
    CountIsMultiplicity(left, r);
    CountIsMultiplicity(right, r);
  }

  /** DISTINCT and UNION keep each row exactly once. */
  lemma {:induction false} DedupMultiplicity(rows: seq<Row>, r: Row)
    requires AllClean(rows) && Clean(r)
    ensures multiset(Dedup(rows, |rows|))[r] == if r in rows then 1 else 0
  {
    hide AllClean, Clean, Key, Count, Dedup, Intersect, Except;
    var n := |rows|;
    assert rows[..n] == rows;
    PartsClean(rows, [], true, n);
    CountIsMultiplicity(Dedup(rows, n), r);
    CountIsMultiplicity(rows, r);
    DedupCounts(rows, n, Key(r));
  }

  /** INTERSECT ALL and EXCEPT ALL split the left input: every row goes to exactly one of them, in order,
      whatever bytes the texts hold. */
  lemma {:induction false} AllFormsPartition(left: seq<Row>, right: seq<Row>)
    ensures forall i :: 0 <= i < |left| ==> InIntersect(left, right, true, i) != InExcept(left, right, true, i)
    ensures multiset(Intersect(left, right, true, |left|)) + multiset(Except(left, right, true, |left|)) ==
      multiset(left)
    ensures |Intersect(left, right, true, |left|)| + |Except(left, right, true, |left|)| == |left|
  {
    PartitionTo(left, right, |left|);
    assert left[..|left|] == left;
  }

  lemma {:induction false} OneSide(left: seq<Row>, right: seq<Row>, n: nat)
    requires 0 < n <= |left|
    ensures
      var (a, b, x) := (Intersect(left, right, true, n - 1), Except(left, right, true, n - 1), left[n - 1]);
      || (Intersect(left, right, true, n) == a + [x] && Except(left, right, true, n) == b)
      || (Intersect(left, right, true, n) == a && Except(left, right, true, n) == b + [x])
  {
    hide Key, Count;
  }

  /** Two lists that together make up a third. */
  ghost predicate Splits(a: seq<Row>, b: seq<Row>, l: seq<Row>) {
    multiset(a) + multiset(b) == multiset(l) && |a| + |b| == |l|
  }

  lemma {:induction false} SplitSnoc(a: seq<Row>, b: seq<Row>, l: seq<Row>, x: Row)
    requires Splits(a, b, l)
    ensures Splits(a + [x], b, l + [x]) && Splits(a, b + [x], l + [x])
  {
  }

  lemma {:induction false} SplitNone(left: seq<Row>, right: seq<Row>)
    ensures Splits(Intersect(left, right, true, 0), Except(left, right, true, 0), left[..0])
  {
    assert left[..0] == [];
  }

  lemma {:induction false} PartitionTo(left: seq<Row>, right: seq<Row>, n: nat)
    requires n <= |left|
    ensures Splits(Intersect(left, right, true, n), Except(left, right, true, n), left[..n])
  {
    hide Intersect, Except, Splits;
    if n == 0 {
      SplitNone(left, right);
    } else {
      OneSide(left, right, n);
      PartitionTo(left, right, n - 1);
      assert left[..n] == left[..n - 1] + [left[n - 1]];
      SplitSnoc(Intersect(left, right, true, n - 1), Except(left, right, true, n - 1), left[..n - 1], left[n - 1]);
    }
  }

  datatype SetOp = Union | IntersectOp | ExceptOp

  function Combined(op: SetOp, all: bool, left: seq<Row>, right: seq<Row>): seq<Row> {
    match op
    case Union => if all then left + right else Dedup(left + right, |left + right|)
    case IntersectOp => Intersect(left, right, all, |left|)
    case ExceptOp => Except(left, right, all, |left|)
  }

  /** How often a row comes out, by how often it is on the left and on the right. */
  ghost predicate Multiplicities(op: SetOp, all: bool, left: seq<Row>, right: seq<Row>, out: seq<Row>) {
    forall r ::
      var m, n := multiset(left)[r], multiset(right)[r];
      multiset(out)[r] ==
        match op
        case Union => if all then m + n else if m + n > 0 then 1 else 0
        case IntersectOp => if all then (if m < n then m else n) else if m > 0 && n > 0 then 1 else 0
        case ExceptOp => if all then (if m < n then 0 else m - n) else if m > 0 && n == 0 then 1 else 0
  }

  /** UNION ALL adds, INTERSECT ALL takes the minimum, EXCEPT ALL the truncated difference; without ALL a row comes
      out once, if it is on either side, on both, on the left only. */
  lemma {:induction false} CombinedMultiplicities(op: SetOp, all: bool, left: seq<Row>, right: seq<Row>)
    requires AllClean(left) && AllClean(right)
    ensures Multiplicities(op, all, left, right, Combined(op, all, left, right))
  {
    hide Intersect, Except, Dedup, Clean;
    PartsFrom(left, right, all, |left|);
    PartsFrom(left + right, [], all, |left + right|);
    forall r
      ensures
        var m, n := multiset(left)[r], multiset(right)[r];
        multiset(Combined(op, all, left, right))[r] ==
          match op
          case Union => if all then m + n else if m + n > 0 then 1 else 0
          case IntersectOp => if all then (if m < n then m else n) else if m > 0 && n > 0 then 1 else 0
          case ExceptOp => if all then (if m < n then 0 else m - n) else if m > 0 && n == 0 then 1 else 0
    {
      if Clean(r) {
        IntersectMultiplicity(left, right, r);
        ExceptMultiplicity(left, right, r);
        DedupMultiplicity(left + right, r);
      } else {
        assert r !in left && r !in right && r !in Combined(op, all, left, right);
      }
    }
  }

  // ---- ORDER BY, OFFSET and LIMIT ----

  datatype SortItem = SortItem(col: nat, desc: bool)

  predicate Fits(items: seq<SortItem>, width: nat) {
    forall k :: 0 <= k < |items| ==> items[k].col < width
  }

  predicate AllWide(rows: seq<Row>, width: nat) {
    forall i :: 0 <= i < |rows| ==> |rows[i]| == width
  }

  /** A row's values in the ORDER BY columns. */
  function KeyOf(items: seq<SortItem>, r: Row): (k: seq<RC.Datum>)
    requires Fits(items, |r|)
    ensures |k| == |items|
  {
    seq(|items|, k requires 0 <= k < |items| => r[items[k].col])
  }

  function Descending(items: seq<SortItem>): (d: seq<bool>)
    ensures |d| == |items|
  {
    seq(|items|, k requires 0 <= k < |items| => items[k].desc)
  }

  /** `sortResultRows` compares two rows by their positions. */
  function PositionCmp(num: Numbers, items: seq<SortItem>, rows: seq<Row>, width: nat): W.Cmp
    requires Fits(items, width) && AllWide(rows, width)
  {
    (i: nat, j: nat) =>
      if i < |rows| && j < |rows|
      then CompareFrom(num, Descending(items), KeyOf(items, rows[i]), KeyOf(items, rows[j]), 0)
      else 0
  }

  /** No three rows cross in an ORDER BY column. */
  ghost predicate Orderable(num: Numbers, items: seq<SortItem>, rows: seq<Row>, width: nat)
    requires Fits(items, width) && AllWide(rows, width)
  {
    forall i, j, k :: 0 <= i < |rows| && 0 <= j < |rows| && 0 <= k < |rows| ==>
      KeysUncrossed(num, KeyOf(items, rows[i]), KeyOf(items, rows[j]), KeyOf(items, rows[k]))
  }

  ghost function Positions(n: nat): (p: set<nat>)
    ensures forall i: nat :: i in p <==> i < n
  {
    if n == 0 then {} else Positions(n - 1) + {n - 1}
  }

  lemma {:induction false} OrderableIsPreorder(num: Numbers, items: seq<SortItem>, rows: seq<Row>, width: nat)
    requires Fits(items, width) && AllWide(rows, width) && Orderable(num, items, rows, width)
    ensures W.Preorder(PositionCmp(num, items, rows, width), Positions(|rows|))
  {
    hide CompareFrom, KeysUncrossed;
    var cmp := PositionCmp(num, items, rows, width);
    forall i: nat, j: nat, k: nat | i < |rows| && j < |rows| && k < |rows|
      ensures cmp(i, i) == 0 && cmp(i, j) == -cmp(j, i) && (cmp(i, j) <= 0 && cmp(j, k) <= 0 ==> cmp(i, k) <= 0)
    {
      CompareFromOrder(num, Descending(items), KeyOf(items, rows[i]), KeyOf(items, rows[j]), KeyOf(items, rows[k]), 0);
    }
  }

  /** Every position once; in order, ties by position, where the rows can be ordered. */
  ghost predicate IsOrder(num: Numbers, items: seq<SortItem>, rows: seq<Row>, width: nat, order: seq<nat>)
    requires Fits(items, width) && AllWide(rows, width)
  {
    && |order| == |rows| && (forall i: nat :: i in order <==> i < |rows|)
    && (Orderable(num, items, rows, width) ==> W.Sorted(PositionCmp(num, items, rows, width), order))
  }

  function Picked(rows: seq<Row>, order: seq<nat>): (r: seq<Row>)
    requires Inside(order, |rows|)
    ensures |r| == |order|
  {
    seq(|order|, a requires 0 <= a < |order| => rows[order[a]])
  }

  /** Two rows the ORDER BY items find no difference between. */
  ghost predicate Tied(num: Numbers, items: seq<SortItem>, r: Row, s: Row)
    requires Fits(items, |r|) && Fits(items, |s|)
  {
    forall k :: 0 <= k < |items| ==> CompareDatum(num, r[items[k].col], s[items[k].col]) == 0
  }

  /** The first item that finds a difference puts `s` before `r`: by the smaller value, descending by the larger. */
  ghost predicate WrongWay(num: Numbers, items: seq<SortItem>, r: Row, s: Row)
    requires Fits(items, |r|) && Fits(items, |s|)
  {
    exists k :: 0 <= k < |items| && Decides(num, items, r, s, k) &&
      var c := CompareDatum(num, r[items[k].col], s[items[k].col]);
      if items[k].desc then c < 0 else c > 0
  }

  ghost predicate Decides(num: Numbers, items: seq<SortItem>, r: Row, s: Row, k: nat)
    requires Fits(items, |r|) && Fits(items, |s|) && k < |items|
  {
    && CompareDatum(num, r[items[k].col], s[items[k].col]) != 0
    && forall i :: 0 <= i < k ==> CompareDatum(num, r[items[i].col], s[items[i].col]) == 0
  }

  /** No row stands before one it should follow, and tied rows stay in the order they came in. */
  ghost predicate RowsInOrder(num: Numbers, items: seq<SortItem>, width: nat, order: seq<nat>, out: seq<Row>)
    requires Fits(items, width) && AllWide(out, width) && |order| == |out|
  {
    forall a, b :: 0 <= a < b < |out| ==>
      !WrongWay(num, items, out[a], out[b]) && (Tied(num, items, out[a], out[b]) ==> order[a] < order[b])
  }

  lemma {:induction false} SortedPair(num: Numbers, items: seq<SortItem>, r: Row, s: Row)
    requires Fits(items, |r|) && Fits(items, |s|)
    ensures
      var c := CompareFrom(num, Descending(items), KeyOf(items, r), KeyOf(items, s), 0);
      (WrongWay(num, items, r, s) ==> c > 0) && (Tied(num, items, r, s) ==> c == 0)
  {
    hide CompareFrom, CompareDatum;
    var a, b := KeyOf(items, r), KeyOf(items, s);
    CompareFromMeans(num, Descending(items), a, b);
    if WrongWay(num, items, r, s) {
      var k: nat :| k < |items| && Decides(num, items, r, s, k) &&
        var c := CompareDatum(num, r[items[k].col], s[items[k].col]);
        if items[k].desc then c < 0 else c > 0;
      assert FirstDifference(num, a, b, k);
    }
  }

  lemma {:induction false} SortedRows(num: Numbers, items: seq<SortItem>, rows: seq<Row>, width: nat, order: seq<nat>,
                                      out: seq<Row>)
    requires Fits(items, width) && AllWide(rows, width) && InOrder(rows, order, out)
    requires W.Sorted(PositionCmp(num, items, rows, width), order)
    ensures AllWide(out, width) && RowsInOrder(num, items, width, order, out)
  {
    hide CompareFrom, WrongWay, Tied;
    var cmp := PositionCmp(num, items, rows, width);
    forall a, b | 0 <= a < b < |out|
      ensures !WrongWay(num, items, out[a], out[b]) && (Tied(num, items, out[a], out[b]) ==> order[a] < order[b])
    {
      assert W.Before(cmp, order[a], order[b]);
      SortedPair(num, items, out[a], out[b]);
    }
  }

  /** On one column of numbers: an earlier row never has the larger number, or never the smaller when descending. */
  lemma {:induction false} NumbersInOrder(num: Numbers, item: SortItem, width: nat, order: seq<nat>, out: seq<Row>,
                                          a: nat, b: nat)
    requires item.col < width && AllWide(out, width) && |order| == |out| && a < b < |out|
    requires RowsInOrder(num, [item], width, order, out)
    requires forall i :: 0 <= i < |out| ==> out[i][item.col].Text? && num(out[i][item.col].text).Some?
    ensures var x, y := num(out[a][item.col].text).value, num(out[b][item.col].text).value;
      if item.desc then x >= y else x <= y
  {
    hide CompareDatum;
    var r, s := out[a], out[b];
    CompareDatumMeans(num, r[item.col], s[item.col]);
    if CompareDatum(num, r[item.col], s[item.col]) != 0 { assert Decides(num, [item], r, s, 0); }
  }

  predicate Inside(order: seq<nat>, n: nat) {
    forall k :: 0 <= k < |order| ==> order[k] < n
  }

  lemma {:induction false} RemoveAt<T>(b: seq<T>, j: nat)
    requires j < |b|
    ensures multiset(b) == multiset(b[..j] + b[j + 1..]) + multiset{b[j]}
  {
    assert b == b[..j] + [b[j]] + b[j + 1..];
  }

  lemma {:induction false} PickedRemove(rows: seq<Row>, b: seq<nat>, j: nat)
    requires j < |b| && Inside(b, |rows|)
    ensures
      var c := b[..j] + b[j + 1..];
      Inside(c, |rows|) && multiset(Picked(rows, b)) == multiset(Picked(rows, c)) + multiset{rows[b[j]]}
  {
    var p := Picked(rows, b);
    RemoveAt(p, j);
    assert Picked(rows, b[..j] + b[j + 1..]) == p[..j] + p[j + 1..];
  }

  /** The same positions in another order pick the same rows. */
  lemma {:induction false} PickedSame(rows: seq<Row>, a: seq<nat>, b: seq<nat>)
    requires multiset(a) == multiset(b) && Inside(a, |rows|) && Inside(b, |rows|)
    ensures multiset(Picked(rows, a)) == multiset(Picked(rows, b))
  {
    hide Picked;
    if a == [] {
      assert |b| == |multiset(b)| == |multiset(a)| == 0;
    } else {
      assert a[0] in multiset(b);
      var j :| 0 <= j < |b| && b[j] == a[0];
      var c, d := a[..0] + a[1..], b[..j] + b[j + 1..];
      RemoveAt(a, 0);
      RemoveAt(b, j);
      assert multiset(c) == multiset(a) - multiset{a[0]} && multiset(d) == multiset(b) - multiset{a[0]};
      PickedRemove(rows, a, 0);
      PickedRemove(rows, b, j);
      PickedSame(rows, c, d);
    }
  }

  /** `sortResultRows`. */
  method SortResult(num: Numbers, items: seq<SortItem>, rows: seq<Row>, width: nat)
    returns (out: seq<Row>, ghost order: seq<nat>)
    requires Fits(items, width) && AllWide(rows, width)
    ensures IsOrder(num, items, rows, width, order) && InOrder(rows, order, out)
    ensures multiset(out) == multiset(rows) && AllWide(out, width)
    ensures Orderable(num, items, rows, width) ==> RowsInOrder(num, items, width, order, out)
  {
    hide Orderable, W.Preorder, W.Sorted, RowsInOrder;
    var idxs: seq<nat> := seq(|rows|, i requires 0 <= i < |rows| => i);
    forall i: nat ensures i in idxs <==> i < |rows| { if i < |rows| { assert idxs[i] == i; } }
    var sorted := W.StableSort(PositionCmp(num, items, rows, width), idxs, Positions(|rows|));
    if Orderable(num, items, rows, width) { OrderableIsPreorder(num, items, rows, width); }
    order := sorted;
    forall a | 0 <= a < |sorted| ensures sorted[a] < |rows| { assert sorted[a] in sorted; }
    out := Picked(rows, sorted);
    PickedSame(rows, sorted, idxs);
    assert Picked(rows, idxs) == rows;
    if Orderable(num, items, rows, width) { SortedRows(num, items, rows, width, order, out); }
  }

  ghost predicate InOrder(rows: seq<Row>, order: seq<nat>, out: seq<Row>) {
    |out| == |order| && forall a :: 0 <= a < |order| ==> order[a] < |rows| && out[a] == rows[order[a]]
  }

  /** What OFFSET and LIMIT leave: the first `limit` of the rows after the first `offset`. */
  function Window(rows: seq<Row>, offset: Option<nat>, limit: Option<nat>): (r: seq<Row>)
    ensures var from := if offset.Some? then offset.value else 0;
      && |r| <= |rows| && (limit.Some? ==> |r| <= limit.value)
      && (forall i :: 0 <= i < |r| ==> from + i < |rows| && r[i] == rows[from + i])
      && (limit.None? || |r| < limit.value ==> |rows| <= from + |r|)
  {
    var rest := if offset.None? then rows else if offset.value >= |rows| then [] else rows[offset.value..];
    if limit.Some? && limit.value < |rest| then rest[..limit.value] else rest
  }

  /** `execSetOp` on two inputs of the given widths; None when the widths differ. */
  method Combine(num: Numbers, op: SetOp, all: bool, left: seq<Row>, leftCols: nat, right: seq<Row>, rightCols: nat,
                 items: seq<SortItem>, offset: Option<nat>, limit: Option<nat>)
    returns (r: Option<seq<Row>>, ghost order: seq<nat>, ghost sorted: seq<Row>)
    requires AllWide(left, leftCols) && AllWide(right, rightCols) && Fits(items, leftCols)
    ensures r.None? <==> leftCols != rightCols
    ensures r.Some? ==> AllWide(Combined(op, all, left, right), leftCols) && r.value == Window(sorted, offset, limit)
    ensures r.Some? && items == [] ==> sorted == Combined(op, all, left, right)
    ensures r.Some? && items != [] ==>
      && IsOrder(num, items, Combined(op, all, left, right), leftCols, order)
      && InOrder(Combined(op, all, left, right), order, sorted)
    ensures r.Some? ==> AllWide(sorted, leftCols)
    ensures r.Some? && items != [] && Orderable(num, items, Combined(op, all, left, right), leftCols) ==>
      RowsInOrder(num, items, leftCols, order, sorted)
    ensures r.Some? && AllClean(left) && AllClean(right) ==> Multiplicities(op, all, left, right, sorted)
    ensures r.Some? && items == [] ==>
      var src := if op == Union then left + right else left;
      TakenInOrder(src, |src|, sorted, !all) && (op == Union && all ==> sorted == left + right)
    ensures r.Some? && offset.None? && limit.None? ==> r.value == sorted
  {
    hide Orderable, W.Sorted, Combined, IsOrder, RowsInOrder, Multiplicities, AllClean, TakenInOrder;
    order, sorted := [], [];
    if leftCols != rightCols {
      return None, [], [];
    }
    var rows := CombineRows(op, all, left, right);
    CombinedWide(op, all, left, right, leftCols);
    CombinedInOrder(op, all, left, right);
    assert op == Union && all ==> rows == left + right by { UnionAllAppends(left, right); }
    if AllClean(left) && AllClean(right) { CombinedMultiplicities(op, all, left, right); }
    sorted := rows;
    if items != [] {
      var out;
      out, order := SortResult(num, items, rows, leftCols);
      if AllClean(left) && AllClean(right) { SameMultiplicities(op, all, left, right, rows, out); }
      rows, sorted := out, out;
    }
    if offset.Some? {
      rows := if offset.value >= |rows| then [] else rows[offset.value..];
    }
    if limit.Some? && limit.value < |rows| {
      rows := rows[..limit.value];
    }
    return Some(rows), order, sorted;
  }

  // ---- The order without ORDER BY ----

  predicate NewAt(src: seq<Row>, i: nat)
    requires i < |src|
  {
    forall h :: 0 <= h < i ==> Key(src[h]) != Key(src[i])
  }

  /** `out` is made of rows of `src[..n]`, found at the ascending places `at`; with `firsts`, each is the first of its
      key. */
  ghost predicate Taken(src: seq<Row>, n: nat, out: seq<Row>, firsts: bool, at: seq<nat>) {
    && |at| == |out|
    && (forall j :: 0 <= j < |at| ==> at[j] < n && at[j] < |src| && out[j] == src[at[j]])
    && (forall j :: 0 <= j < |at| && firsts ==> NewAt(src, at[j]))
    && (forall j, l :: 0 <= j < l < |at| ==> at[j] < at[l])
  }

  ghost predicate TakenInOrder(src: seq<Row>, n: nat, out: seq<Row>, firsts: bool) {
    exists at: seq<nat> :: Taken(src, n, out, firsts, at)
  }

  lemma {:induction false} CountZero(rows: seq<Row>, k: Bytes)
    requires Count(rows, k) == 0
    ensures forall h :: 0 <= h < |rows| ==> Key(rows[h]) != k
  {
    hide Key;
    if rows != [] { CountZero(rows[..|rows| - 1], k); }
  }

  lemma {:induction false} FirstIsNew(src: seq<Row>, i: nat)
    requires i < |src| && Count(src[..i], Key(src[i])) == 0
    ensures NewAt(src, i)
  {
    CountZero(src[..i], Key(src[i]));
    assert forall h :: 0 <= h < i ==> src[..i][h] == src[h];
  }

  lemma {:induction false} TakeNone(src: seq<Row>, firsts: bool)
    ensures TakenInOrder(src, 0, [], firsts)
  {
    assert Taken(src, 0, [], firsts, []);
  }

  lemma {:induction false} TakeSnoc(src: seq<Row>, n: nat, out: seq<Row>, firsts: bool, take: bool)
    requires n < |src| && TakenInOrder(src, n, out, firsts) && (take && firsts ==> NewAt(src, n))
    ensures TakenInOrder(src, n + 1, out + (if take then [src[n]] else []), firsts)
  {
    hide NewAt;
    var at: seq<nat> :| Taken(src, n, out, firsts, at);
    var more := if take then [src[n]] else [];
    assert Taken(src, n + 1, out + more, firsts, if take then at + [n] else at);
  }

  lemma {:induction false} IntersectTaken(left: seq<Row>, right: seq<Row>, all: bool, n: nat)
    requires n <= |left|
    ensures TakenInOrder(left, n, Intersect(left, right, all, n), !all)
  {
    hide TakenInOrder, NewAt, Count, Key;
    if n == 0 {
      TakeNone(left, !all);
    } else {
      IntersectTaken(left, right, all, n - 1);
      if InIntersect(left, right, all, n - 1) && !all { FirstIsNew(left, n - 1); }
      TakeSnoc(left, n - 1, Intersect(left, right, all, n - 1), !all, InIntersect(left, right, all, n - 1));
    }
  }

  lemma {:induction false} ExceptTaken(left: seq<Row>, right: seq<Row>, all: bool, n: nat)
    requires n <= |left|
    ensures TakenInOrder(left, n, Except(left, right, all, n), !all)
  {
    hide TakenInOrder, NewAt, Count, Key;
    if n == 0 {
      TakeNone(left, !all);
    } else {
      ExceptTaken(left, right, all, n - 1);
      if InExcept(left, right, all, n - 1) && !all { FirstIsNew(left, n - 1); }
      TakeSnoc(left, n - 1, Except(left, right, all, n - 1), !all, InExcept(left, right, all, n - 1));
    }
  }

  lemma {:induction false} DedupTaken(rows: seq<Row>, n: nat)
    requires n <= |rows|
    ensures TakenInOrder(rows, n, Dedup(rows, n), true)
  {
    hide TakenInOrder, NewAt, Count, Key;
    if n == 0 {
      TakeNone(rows, true);
    } else {
      DedupTaken(rows, n - 1);
      var take := Count(rows[..n - 1], Key(rows[n - 1])) == 0;
      if take { FirstIsNew(rows, n - 1); }
      TakeSnoc(rows, n - 1, Dedup(rows, n - 1), true, take);
    }
  }

  /** The rows of a set operation stand as they stood in the left input, for UNION in the left and then the right one;
      without ALL each is the first of its key there. */
  lemma {:induction false} CombinedInOrder(op: SetOp, all: bool, left: seq<Row>, right: seq<Row>)
    ensures var src := if op == Union then left + right else left;
      TakenInOrder(src, |src|, Combined(op, all, left, right), !all)
  {
    hide Dedup, Intersect, Except, NewAt;
    match op
    case Union =>
      var src := left + right;
      if all {
        assert Taken(src, |src|, src, false, seq(|src|, i => i));
      } else {
        DedupTaken(src, |src|);
      }
    case IntersectOp => IntersectTaken(left, right, all, |left|);
    case ExceptOp => ExceptTaken(left, right, all, |left|);
  }

  lemma {:induction false} UnionAllAppends(left: seq<Row>, right: seq<Row>)
    ensures Combined(Union, true, left, right) == left + right
  {
  }

  lemma {:induction false} SameMultiplicities(op: SetOp, all: bool, left: seq<Row>, right: seq<Row>, a: seq<Row>,
                                              b: seq<Row>)
    requires multiset(a) == multiset(b) && Multiplicities(op, all, left, right, a)
    ensures Multiplicities(op, all, left, right, b)
  {
  }

  method CombineRows(op: SetOp, all: bool, left: seq<Row>, right: seq<Row>) returns (rows: seq<Row>)
    ensures rows == Combined(op, all, left, right)
  {
    match op {
      case Union =>
        rows := left + right;
        if !all {
          rows := DedupRows(rows);
        }
      case IntersectOp => rows := IntersectRows(left, right, all);
      case ExceptOp => rows := ExceptRows(left, right, all);
    }
  }

  /** A set operation makes up no row. */
  lemma {:induction false} CombinedWide(op: SetOp, all: bool, left: seq<Row>, right: seq<Row>, width: nat)
    requires AllWide(left, width) && AllWide(right, width)
    ensures AllWide(Combined(op, all, left, right), width)
  {
    hide Intersect, Except, Dedup;
    PartsFrom(left, right, all, |left|);
    PartsFrom(left + right, [], all, |left + right|);
    var rows := Combined(op, all, left, right);
    forall i | 0 <= i < |rows| ensures |rows[i]| == width {
      assert rows[i] in rows;
      assert rows[i] in left + right;
    }
  }

  lemma {:induction false} PartsFrom(left: seq<Row>, right: seq<Row>, all: bool, n: nat)
    requires n <= |left|
    ensures forall r :: r in Intersect(left, right, all, n) || r in Except(left, right, all, n) ==> r in left
    ensures forall r :: r in Dedup(left, n) ==> r in left
  {
    hide InIntersect, InExcept, Count, Key;
    if n > 0 { PartsFrom(left, right, all, n - 1); }
  }
}
