/** Serving a SELECT from an index (engine/internal/executor/index_scan.go, join.go): the range scan
    fetches rows in index order, the predicate is applied again, and the result is what a full scan
    followed by the stable sort would have produced. */
module IndexScan {
  import opened Bytes
  import opened Versions
  import opened OrderEncoding
  import opened Keys
  import opened IndexMaintenance
  import opened QueryPlan
  import IR = IndexRuns
  import MI = MergeIterator
  import Decimal

  /** What a transaction sees. */
  type KeyView = Key -> Option<Bytes>

  function RowAt(t: Table, v: KeyView, pk: Bytes): Option<Row> {
    IR.RowIn(t, v(RK(t, pk)))
  }

  /** The view keeps every index exact: the state every transaction is in, by IndexRuns. */
  ghost predicate InSync(t: Table, v: KeyView)
    requires TableOk(t)
  {
    && (forall pk :: v(RK(t, pk)).Some? ==> RowAt(t, v, pk).Some? && RowOk(t, RowAt(t, v, pk).value, pk))
    && (forall d, tup, pk :: d in t.defs && HasShape(t, d, tup) ==>
          v(IK(t, d, tup, pk)) == if TupleIn(t, d, RowAt(t, v, pk)) == Some(tup) then Some(pk) else None)
    && (forall k :: v(k).Some? ==> OwnForm(t, k) || IR.Foreign(t, k))
  }

  /** `es` is what an iterator over the view yields under a prefix, from a bound on. */
  ghost predicate IsScan(es: seq<MI.Entry>, v: KeyView, prefix: Bytes, from: Key) {
    && MI.EntriesAscending(es)
    && forall k :: MI.Lookup(es, k) == if HasPrefix(k, prefix) && Le(from, k) then v(k) else None
  }

  // ---- Rows and their keys ----

  function PkOf(t: Table, r: Row): Bytes {
    if t.pk < |r| && r[t.pk].Text? then r[t.pk].text else []
  }

  ghost predicate LiveRow(t: Table, v: KeyView, r: Row) {
    RowAt(t, v, PkOf(t, r)) == Some(r)
  }

  /** Position of a row in a full scan. */
  function ScanKey(t: Table, r: Row): Bytes {
    RK(t, PkOf(t, r))
  }

  /** The tuple a row contributes to an index; None when one of the columns is NULL. */
  function TupleAt(t: Table, d: IndexDef, r: Row): Option<seq<Value>> {
    if ColsOk(t, d.cols) && |r| == |t.kinds| then TupleIn(t, d, Some(r)) else None
  }

  /** Position of a row in an index. */
  function EntryKey(t: Table, d: IndexDef, r: Row): Bytes {
    var tup := TupleAt(t, d, r);
    if tup.Some? then IK(t, d, tup.value, PkOf(t, r)) else []
  }

  /** Position of a row by the value of one column, equal values in scan order. */
  function SortKey(t: Table, d: IndexDef, col: nat, r: Row): Bytes {
    var c := ColValue(t, r, col);
    if c.Some? then IK(t, d, [c.value], PkOf(t, r)) else []
  }

  ghost predicate AscendingBy(rows: seq<Row>, f: Row -> Bytes) {
    forall i, j :: 0 <= i < j < |rows| ==> Lt(f(rows[i]), f(rows[j]))
  }

  lemma {:induction false} AscendingDistinct(rows: seq<Row>, f: Row -> Bytes, i: nat, j: nat)
    requires AscendingBy(rows, f) && i < |rows| && j < |rows| && f(rows[i]) == f(rows[j])
    ensures i == j
  {
    LtIrreflexive(f(rows[i]));
  }

  /** Two row lists ascending by the same key with the same members are the same list. */
  lemma {:induction false} AscendingListsEqual(a: seq<Row>, b: seq<Row>, f: Row -> Bytes)
    requires AscendingBy(a, f) && AscendingBy(b, f) && forall r :: r in a <==> r in b
    ensures a == b
  {
    var ka := seq(|a|, i requires 0 <= i < |a| => f(a[i]));
    var kb := seq(|b|, i requires 0 <= i < |b| => f(b[i]));
    forall k ensures k in ka <==> k in kb {
      if k in ka {
        var i :| 0 <= i < |ka| && ka[i] == k;
        assert a[i] in b;
        var j :| 0 <= j < |b| && b[j] == a[i];
        assert kb[j] == k;
      }
      if k in kb {
        var i :| 0 <= i < |kb| && kb[i] == k;
        assert b[i] in a;
        var j :| 0 <= j < |a| && a[j] == b[i];
        assert ka[j] == k;
      }
    }
    AscendingUnique(ka, kb);
    assert |a| == |b|;
    forall i | 0 <= i < |a| ensures a[i] == b[i] {
      assert a[i] in b;
      var j :| 0 <= j < |b| && b[j] == a[i];
      assert f(b[j]) == ka[i] == kb[i] == f(b[i]);
      AscendingDistinct(b, f, i, j);
    }
  }

  ghost predicate Distinct(a: seq<Row>) {
    forall i, j :: 0 <= i < j < |a| ==> a[i] != a[j]
  }

  ghost predicate SameMembers(a: seq<Row>, b: seq<Row>) {
    forall r :: r in a <==> r in b
  }

  lemma {:induction false} DistinctSameMembers(a: seq<Row>, b: seq<Row>)
    requires forall i, j :: 0 <= i < j < |a| ==> a[i] != a[j]
    requires forall i, j :: 0 <= i < j < |b| ==> b[i] != b[j]
    requires forall r :: r in a <==> r in b
    ensures multiset(a) == multiset(b)
  {
    forall r ensures multiset(a)[r] == multiset(b)[r] {
      AtMostOnce(a, r);
      AtMostOnce(b, r);
    }
  }

  lemma {:induction false} AtMostOnce(a: seq<Row>, r: Row)
    requires forall i, j :: 0 <= i < j < |a| ==> a[i] != a[j]
    ensures multiset(a)[r] == if r in a then 1 else 0
    decreases |a|
  {
    if a != [] {
      AtMostOnce(a[1..], r);
      assert a == [a[0]] + a[1..];
    }
  }

  // ---- The two ways of fetching ----

  /** `scanTable` on main: every live row, in key order. */
  function RowsOf(t: Table, es: seq<MI.Entry>): seq<Row>
    decreases |es|
  {
    if es == [] then []
    else
      var r := IR.RowIn(t, Some(es[0].1));
      (if r.Some? then [r.value] else []) + RowsOf(t, es[1..])
  }

  /** The key lies beyond the inclusive upper bound. */
  predicate Past(hi: Option<Key>, k: Key) {
    hi.Some? && Lt(hi.value, k)
  }

  /** `scanIndexRange` forwards: stop past `hi`, fetch each entry's row, skip entries without one. */
  function Fetch(t: Table, v: KeyView, es: seq<MI.Entry>, hi: Option<Key>): seq<Row>
    decreases |es|
  {
    if es == [] || Past(hi, es[0].0) then []
    else
      var r := RowAt(t, v, es[0].1);
      (if r.Some? then [r.value] else []) + Fetch(t, v, es[1..], hi)
  }

  /** The entry the iterator stands on and everything after it. */
  function Pending(it: MI.MergedIterator): seq<MI.Entry>
    requires it.InRange()
    reads it, it.store
  {
    if it.valid then [(it.curKey, it.curVal)] + it.Remaining() else []
  }

  /** One turn of the loop: consume the current entry. */
  method FetchOne(t: Table, v: KeyView, it: MI.MergedIterator, out: seq<Row>) returns (r: seq<Row>)
    requires it.InRange() && it.valid
    modifies it, it.store
    ensures it.InRange() && Pending(it) == old(it.Remaining())
    ensures r == out + if RowAt(t, v, old(it.curVal)).Some? then [RowAt(t, v, old(it.curVal)).value] else []
  {
    var row := RowAt(t, v, it.curVal);
    r := if row.Some? then out + [row.value] else out;
    it.Produce();
  }

  function Take(rows: seq<Row>, n: nat): seq<Row> {
    if |rows| <= n then rows else rows[..n]
  }

  /** The early stop of ORDER BY ... LIMIT without WHERE: the count is looked at after a row is added, so
      LIMIT 0 still fetches one. A LIMIT applied to these rows themselves does not notice; EarlyStop says what
      does. */
  function Cut(limit: Option<nat>, rows: seq<Row>): (r: seq<Row>)
    ensures limit.Some? ==> Take(r, limit.value) == Take(rows, limit.value)
  {
    if limit.None? then rows else Take(rows, if limit.value < 1 then 1 else limit.value)
  }

  /** The loop over the transaction's merged iterator. */
  method FetchFrom(t: Table, v: KeyView, it: MI.MergedIterator, hi: Option<Key>, limit: Option<nat>)
    returns (out: seq<Row>)
    requires it.InRange()
    modifies it, it.store
    ensures out == Cut(limit, Fetch(t, v, old(Pending(it)), hi))
  {
    hide RowAt, Fetch, MI.Merge, MI.PrefixRun;
    ghost var all := Pending(it);
    out := [];
    while it.valid
      invariant it.InRange()
      invariant out + Fetch(t, v, Pending(it), hi) == Fetch(t, v, all, hi)
      invariant limit.Some? ==> out == [] || |out| < limit.value
      decreases |Pending(it)|
    {
      if Past(hi, it.curKey) { break; }
      FetchStep(t, v, (it.curKey, it.curVal), it.Remaining(), hi, out);
      var more := FetchOne(t, v, it, out);
      if limit.Some? && |more| > |out| && |more| >= limit.value { return more; }
      out := more;
    }
    FetchEnds(t, v, Pending(it), hi);
  }

  lemma {:induction false} FetchStep(t: Table, v: KeyView, e: MI.Entry, rest: seq<MI.Entry>, hi: Option<Key>,
                                     out: seq<Row>)
    requires !Past(hi, e.0)
    ensures out + Fetch(t, v, [e] + rest, hi) ==
      out + (if RowAt(t, v, e.1).Some? then [RowAt(t, v, e.1).value] else []) + Fetch(t, v, rest, hi)
  {
    assert ([e] + rest)[1..] == rest;
  }

  lemma {:induction false} FetchEnds(t: Table, v: KeyView, es: seq<MI.Entry>, hi: Option<Key>)
    requires es == [] || Past(hi, es[0].0)
    ensures Fetch(t, v, es, hi) == []
  {
  }

  /** Positioning: the iterator then holds the whole scan. */
  method Position(it: MI.MergedIterator, lo: Option<Key>)
    modifies it, it.store
    ensures it.InRange()
    ensures Pending(it) == MI.ScanResult(it.store.entries, it.store.prefix, it.buf, lo)
  {
    hide MI.Merge, MI.PrefixRun, MI.SeekEntries, MI.SeekMuts;
    if lo.Some? { it.Seek(lo.value); } else { it.Rewind(); }
  }

  method ScanIndexRange(t: Table, v: KeyView, it: MI.MergedIterator, lo: Option<Key>, hi: Option<Key>,
                        limit: Option<nat>) returns (out: seq<Row>)
    modifies it, it.store
    ensures out == Cut(limit, Fetch(t, v, MI.ScanResult(it.store.entries, it.store.prefix, it.buf, lo), hi))
  {
    hide Fetch, Cut, RowAt, Pending, MI.ScanResult;
    Position(it, lo);
    out := FetchFrom(t, v, it, hi, limit);
  }

  function Filter(t: Table, where: Option<Expr>, rows: seq<Row>): seq<Row>
    decreases |rows|
  {
    if rows == [] then []
    else (if Keeps(t, where, rows[0]) then [rows[0]] else []) + Filter(t, where, rows[1..])
  }

  lemma {:induction false} FilterMembers(t: Table, where: Option<Expr>, rows: seq<Row>, r: Row)
    ensures r in Filter(t, where, rows) <==> r in rows && Keeps(t, where, r)
    decreases |rows|
  {
    if rows != [] {
      FilterMembers(t, where, rows[1..], r);
      assert rows == [rows[0]] + rows[1..];
    }
  }

  lemma {:induction false} FilterAscends(t: Table, where: Option<Expr>, rows: seq<Row>, f: Row -> Bytes)
    requires AscendingBy(rows, f)
    ensures AscendingBy(Filter(t, where, rows), f)
    decreases |rows|
  {
    if rows != [] {
      FilterAscends(t, where, rows[1..], f);
      var rest := Filter(t, where, rows[1..]);
      forall j | 0 <= j < |rest| ensures Lt(f(rows[0]), f(rest[j])) {
        FilterMembers(t, where, rows[1..], rest[j]);
        var i :| 0 <= i < |rows[1..]| && rows[1..][i] == rest[j];
        assert rows[i + 1] == rest[j];
      }
    }
  }

  // ---- The sort ----

  /** `compareSortKey(a, b) <= 0` ascending: NULL sorts last, values by their encodings. */
  predicate SortLe(t: Table, col: nat, a: Row, b: Row) {
    var x, y := ColValue(t, a, col), ColValue(t, b, col);
    y.None? || (x.Some? && !Lt(OrderEncode(y.value), OrderEncode(x.value)))
  }

  function SortInsert(t: Table, col: nat, x: Row, l: seq<Row>): seq<Row>
    decreases |l|
  {
    if l == [] || SortLe(t, col, x, l[0]) then [x] + l else [l[0]] + SortInsert(t, col, x, l[1..])
  }

  /** `sort.SliceStable` by one ascending column: ties keep their input order. */
  function StableSort(t: Table, col: nat, rows: seq<Row>): seq<Row>
    decreases |rows|
  {
    if rows == [] then [] else SortInsert(t, col, rows[0], StableSort(t, col, rows[1..]))
  }

  lemma {:induction false} SortInsertMembers(t: Table, col: nat, x: Row, l: seq<Row>, r: Row)
    ensures r in SortInsert(t, col, x, l) <==> r == x || r in l
    decreases |l|
  {
    if !(l == [] || SortLe(t, col, x, l[0])) {
      SortInsertMembers(t, col, x, l[1..], r);
      assert l == [l[0]] + l[1..];
    }
  }

  lemma {:induction false} StableSortMembers(t: Table, col: nat, rows: seq<Row>, r: Row)
    ensures r in StableSort(t, col, rows) <==> r in rows
    decreases |rows|
  {
    if rows != [] {
      StableSortMembers(t, col, rows[1..], r);
      SortInsertMembers(t, col, rows[0], StableSort(t, col, rows[1..]), r);
      assert rows == [rows[0]] + rows[1..];
    }
  }

  /** A row with a non-NULL value in an indexed column of its declared type. */
  ghost predicate HasValue(t: Table, col: nat, r: Row) {
    && col < |t.kinds| && ColValue(t, r, col).Some? && KindOf(ColValue(t, r, col).value) == t.kinds[col]
  }

  /** The sort order is value order, and scan order among equal values. */
  lemma {:induction false} SortOrder(t: Table, d: IndexDef, col: nat, a: Row, b: Row)
    requires HasValue(t, col, a) && HasValue(t, col, b)
    ensures var x, y := ColValue(t, a, col).value, ColValue(t, b, col).value;
      && SameKind(x, y)
      && (Lt(SortKey(t, d, col, a), SortKey(t, d, col, b)) <==>
            OrderEncoding.Less(x, y) || (x == y && Lt(ScanKey(t, a), ScanKey(t, b))))
      && (SortLe(t, col, a, b) <==> !OrderEncoding.Less(y, x))
  {
    hide OrderEncode, EncodeTuple, IndexKey, RowKey, ColValue;
    var x, y := ColValue(t, a, col).value, ColValue(t, b, col).value;
    assert SameKind(x, y) && SameShape([x], [y]);
    IndexKeyOrder(t.ns, MAIN_NAME, t.name, d.name, [x], PkOf(t, a), [y], PkOf(t, b));
    RowKeyOrder(t.ns, MAIN_NAME, t.name, PkOf(t, a), PkOf(t, b));
    LessTotal(x, y);
    assert [x][1..] == [] && [y][1..] == [];
    assert TupleLess([x], [y]) <==> OrderEncoding.Less(x, y);
    assert [x] == [y] <==> x == y by { assert [x][0] == x && [y][0] == y; }
    if x == y {
      LtIrreflexive(OrderEncode(x));
    } else {
      EncodingDecides(y, x, [], []);
      assert OrderEncode(y) + [] == OrderEncode(y) && OrderEncode(x) + [] == OrderEncode(x);
    }
  }

  lemma {:induction false} SortInsertAscends(t: Table, d: IndexDef, col: nat, x: Row, l: seq<Row>)
    requires HasValue(t, col, x) && forall r :: r in l ==> HasValue(t, col, r)
    requires forall r :: r in l ==> Lt(ScanKey(t, x), ScanKey(t, r))
    requires AscendingBy(l, r => SortKey(t, d, col, r))
    ensures AscendingBy(SortInsert(t, col, x, l), r => SortKey(t, d, col, r))
    decreases |l|
  {
    hide SortKey, SortLe, HasValue, ScanKey;
    var f := r => SortKey(t, d, col, r);
    if l != [] {
      LtOrBefore(t, d, col, x, l[0]);
      if SortLe(t, col, x, l[0]) {
        forall j | 0 <= j < |l| ensures Lt(f(x), f(l[j])) {
          if j > 0 { LtTransitive(f(x), f(l[0]), f(l[j])); }
        }
      } else {
        SortInsertAscends(t, d, col, x, l[1..]);
        var rest := SortInsert(t, col, x, l[1..]);
        forall j | 0 <= j < |rest| ensures Lt(f(l[0]), f(rest[j])) {
          SortInsertMembers(t, col, x, l[1..], rest[j]);
          if rest[j] != x {
            var i :| 0 <= i < |l[1..]| && l[1..][i] == rest[j];
            assert l[i + 1] == rest[j];
          }
        }
      }
    }
  }

  /** A row that scans earlier goes before exactly the rows it sorts at or below. */
  lemma {:induction false} LtOrBefore(t: Table, d: IndexDef, col: nat, x: Row, y: Row)
    requires HasValue(t, col, x) && HasValue(t, col, y) && Lt(ScanKey(t, x), ScanKey(t, y))
    ensures if SortLe(t, col, x, y) then Lt(SortKey(t, d, col, x), SortKey(t, d, col, y))
            else Lt(SortKey(t, d, col, y), SortKey(t, d, col, x))
  {
    hide SortKey, SortLe, ScanKey, ColValue;
    SortOrder(t, d, col, x, y);
    SortOrder(t, d, col, y, x);
    LessTotal(ColValue(t, x, col).value, ColValue(t, y, col).value);
  }

  /** Stably sorting rows in scan order puts them in index order. */
  lemma {:induction false} StableSortAscends(t: Table, d: IndexDef, col: nat, rows: seq<Row>)
    requires AscendingBy(rows, r => ScanKey(t, r)) && forall r :: r in rows ==> HasValue(t, col, r)
    ensures AscendingBy(StableSort(t, col, rows), r => SortKey(t, d, col, r))
    decreases |rows|
  {
    hide SortKey, HasValue, ScanKey;
    if rows != [] {
      var f := r => ScanKey(t, r);
      StableSortAscends(t, d, col, rows[1..]);
      var l := StableSort(t, col, rows[1..]);
      forall r | r in l ensures HasValue(t, col, r) && Lt(ScanKey(t, rows[0]), ScanKey(t, r)) {
        StableSortMembers(t, col, rows[1..], r);
        var i :| 0 <= i < |rows[1..]| && rows[1..][i] == r;
        assert r == rows[i + 1];
        assert Lt(f(rows[0]), f(rows[i + 1]));
      }
      SortInsertAscends(t, d, col, rows[0], l);
    }
  }

  // ---- What a full scan fetches ----

  lemma {:induction false} ScannedRow(t: Table, v: KeyView, k: Key, raw: Bytes)
    requires TableOk(t) && InSync(t, v) && HasPrefix(k, RowPrefix(t.ns, MAIN_NAME, t.name)) && v(k) == Some(raw)
    ensures IR.RowIn(t, Some(raw)).Some?
    ensures var r := IR.RowIn(t, Some(raw)).value; LiveRow(t, v, r) && ScanKey(t, r) == k
  {
    if pk :| k == RK(t, pk) {
      assert RowAt(t, v, pk).Some?;
    } else {
      assert OwnForm(t, k);
      var d, tup, pk :| d in t.defs && HasShape(t, d, tup) && k == IK(t, d, tup, pk);
      IndexKeyShape(t.ns, MAIN_NAME, t.name, d.name, EncodeTuple(tup), pk);
      DataAndIndexDisjoint(t.ns, MAIN_NAME, t.name, t.name, d.name, k);
    }
  }

  lemma {:induction false} RowsOfEntries(t: Table, v: KeyView, es: seq<MI.Entry>)
    requires TableOk(t) && InSync(t, v)
    requires forall i :: 0 <= i < |es| ==>
      HasPrefix(es[i].0, RowPrefix(t.ns, MAIN_NAME, t.name)) && v(es[i].0) == Some(es[i].1)
    ensures |RowsOf(t, es)| == |es|
    ensures forall i :: 0 <= i < |es| ==> LiveRow(t, v, RowsOf(t, es)[i]) && ScanKey(t, RowsOf(t, es)[i]) == es[i].0
    decreases |es|
  {
    hide InSync, LiveRow, ScanKey;
    if es != [] {
      ScannedRow(t, v, es[0].0, es[0].1);
      RowsOfEntries(t, v, es[1..]);
    }
  }

  lemma {:induction false} ScanEntries(es: seq<MI.Entry>, v: KeyView, prefix: Bytes, from: Key, i: nat)
    requires IsScan(es, v, prefix, from) && i < |es|
    ensures HasPrefix(es[i].0, prefix) && v(es[i].0) == Some(es[i].1)
  {
    MI.LookupHits(es, i);
  }

  lemma {:induction false} ScanFinds(es: seq<MI.Entry>, v: KeyView, prefix: Bytes, from: Key, k: Key)
    requires IsScan(es, v, prefix, from) && HasPrefix(k, prefix) && Le(from, k) && v(k).Some?
    ensures exists i :: 0 <= i < |es| && es[i].0 == k
  {
    assert MI.Lookup(es, k).Some?;
    var i :| 0 <= i < |es| && es[i] == (k, MI.Lookup(es, k).value);
  }

  /** A full scan returns exactly the live rows, in key order. */
  lemma {:induction false} FullScanRows(t: Table, v: KeyView, es: seq<MI.Entry>)
    requires TableOk(t) && InSync(t, v)
    requires IsScan(es, v, RowPrefix(t.ns, MAIN_NAME, t.name), RowPrefix(t.ns, MAIN_NAME, t.name))
    ensures AscendingBy(RowsOf(t, es), r => ScanKey(t, r))
    ensures forall r :: r in RowsOf(t, es) <==> LiveRow(t, v, r)
  {
    hide InSync, IsScan, RowPrefix;
    var prefix := RowPrefix(t.ns, MAIN_NAME, t.name);
    forall i | 0 <= i < |es| ensures HasPrefix(es[i].0, prefix) && v(es[i].0) == Some(es[i].1) {
      ScanEntries(es, v, prefix, prefix, i);
    }
    RowsOfEntries(t, v, es);
    assert MI.EntriesAscending(es) by { ScanAscends(es, v, prefix, prefix); }
    forall r | LiveRow(t, v, r) ensures r in RowsOf(t, es) {
      LiveRowIsScanned(t, v, es, r);
    }
  }

  lemma {:induction false} ScanAscends(es: seq<MI.Entry>, v: KeyView, prefix: Bytes, from: Key)
    requires IsScan(es, v, prefix, from)
    ensures MI.EntriesAscending(es)
  {
  }

  lemma {:induction false} LiveRowIsScanned(t: Table, v: KeyView, es: seq<MI.Entry>, r: Row)
    requires TableOk(t) && InSync(t, v) && LiveRow(t, v, r)
    requires IsScan(es, v, RowPrefix(t.ns, MAIN_NAME, t.name), RowPrefix(t.ns, MAIN_NAME, t.name))
    requires |RowsOf(t, es)| == |es|
    requires forall i :: 0 <= i < |es| ==> LiveRow(t, v, RowsOf(t, es)[i]) && ScanKey(t, RowsOf(t, es)[i]) == es[i].0
    ensures r in RowsOf(t, es)
  {
    hide InSync, IsScan, RowPrefix;
    var prefix := RowPrefix(t.ns, MAIN_NAME, t.name);
    RowKeyShape(t.ns, MAIN_NAME, t.name, PkOf(t, r));
    PrefixLe(prefix, ScanKey(t, r));
    assert v(ScanKey(t, r)).Some?;
    ScanFinds(es, v, prefix, prefix, ScanKey(t, r));
    var i :| 0 <= i < |es| && es[i].0 == ScanKey(t, r);
    var q := RowsOf(t, es)[i];
    RowKeysDistinct(t, PkOf(t, q), PkOf(t, r));
    assert q == r;
  }

  // ---- What an index range fetches ----

  function ColPrefix(t: Table, d: IndexDef): Bytes {
    IndexColumnPrefix(t.ns, MAIN_NAME, t.name, d.name)
  }

  function LoKey(t: Table, d: IndexDef, lo: seq<Value>): Key {
    ColPrefix(t, d) + EncodeTuple(lo)
  }

  /** 0xFF after the values, so that every primary key of the upper values is included. */
  function HiKey(t: Table, d: IndexDef, hi: seq<Value>): Option<Key> {
    if hi != [] then Some(ColPrefix(t, d) + EncodeTuple(hi) + [0xFF]) else None
  }

  /** No column of the index is NULL. */
  ghost predicate NonNull(t: Table, d: IndexDef, r: Row) {
    forall i :: 0 <= i < |d.cols| ==> ColValue(t, r, d.cols[i]).Some?
  }

  lemma {:induction false} TupleColumns(t: Table, cols: seq<nat>, r: Row)
    requires |r| == |t.kinds| && ColsOk(t, cols) && !TupleOf(t, cols, r).BadValue?
    ensures TupleOf(t, cols, r).Tuple? <==> forall i :: 0 <= i < |cols| ==> ColValue(t, r, cols[i]).Some?
    ensures var tup := TupleOf(t, cols, r);
      tup.Tuple? ==> |tup.vs| == |cols| && forall i :: 0 <= i < |cols| ==> ColValue(t, r, cols[i]) == Some(tup.vs[i])
    decreases |cols|
  {
    if cols != [] && !r[cols[0]].Null? {
      TupleColumns(t, cols[1..], r);
      forall i | 0 < i < |cols| ensures cols[i] == cols[1..][i - 1] {}
    }
  }

  /** A live row has a tuple in an index exactly when none of its columns is NULL, and then an entry. */
  lemma {:induction false} LiveTuple(t: Table, v: KeyView, d: IndexDef, r: Row)
    requires TableOk(t) && InSync(t, v) && d in t.defs && LiveRow(t, v, r)
    ensures TupleAt(t, d, r).Some? <==> NonNull(t, d, r)
    ensures TupleAt(t, d, r).Some? ==> HasShape(t, d, TupleAt(t, d, r).value)
    ensures TupleAt(t, d, r).Some? ==> HasTuple(t, d, r, TupleAt(t, d, r).value)
    ensures TupleAt(t, d, r).Some? ==> v(EntryKey(t, d, r)) == Some(PkOf(t, r))
  {
    hide TupleOf, IK, RK;
    assert v(RK(t, PkOf(t, r))).Some?;
    TupleColumns(t, d.cols, r);
    TupleHasShape(t, d.cols, r);
  }

  /** Every entry leads to the live row it was made from. */
  lemma {:induction false} EntryRow(t: Table, v: KeyView, d: IndexDef, k: Key, val: Bytes)
    requires TableOk(t) && InSync(t, v) && d in t.defs
    requires HasPrefix(k, ColPrefix(t, d)) && v(k) == Some(val)
    ensures RowAt(t, v, val).Some?
    ensures var r := RowAt(t, v, val).value;
      LiveRow(t, v, r) && TupleAt(t, d, r).Some? && EntryKey(t, d, r) == k
  {
    hide TupleOf, IK, RK;
    IR.IndexOwnIsEntry(t, k);
    var e, tup, pk :| e in t.defs && HasShape(t, e, tup) && k == IK(t, e, tup, pk);
    IR.EntryUnderItsPrefix(t, d, e, tup, pk);
    assert TupleIn(t, d, RowAt(t, v, pk)) == Some(tup) && val == pk;
    assert v(RK(t, pk)).Some?;
  }

  lemma {:induction false} FetchEntries(t: Table, v: KeyView, d: IndexDef, es: seq<MI.Entry>, hi: Option<Key>)
    requires TableOk(t) && InSync(t, v) && d in t.defs && MI.EntriesAscending(es)
    requires forall i :: 0 <= i < |es| ==> HasPrefix(es[i].0, ColPrefix(t, d)) && v(es[i].0) == Some(es[i].1)
    ensures |Fetch(t, v, es, hi)| <= |es|
    ensures forall i :: 0 <= i < |Fetch(t, v, es, hi)| ==>
      var r := Fetch(t, v, es, hi)[i]; LiveRow(t, v, r) && TupleAt(t, d, r).Some? && EntryKey(t, d, r) == es[i].0
    ensures forall i :: 0 <= i < |es| ==> (i < |Fetch(t, v, es, hi)| <==> !Past(hi, es[i].0))
    decreases |es|
  {
    hide InSync, LiveRow, TupleAt, EntryKey, ColPrefix, RowAt;
    if es == [] {
    } else if Past(hi, es[0].0) {
      forall i | 0 <= i < |es| ensures Past(hi, es[i].0) {
        if i > 0 { LtTransitive(hi.value, es[0].0, es[i].0); }
      }
    } else {
      EntryRow(t, v, d, es[0].0, es[0].1);
      FetchEntries(t, v, d, es[1..], hi);
    }
  }

  /** An entry whose leading values are the upper end lies past the scan's last key all the same: the
      next column's encoding starts with the sentinel byte. */
  ghost predicate CutOff(tup: seq<Value>, hi: seq<Value>) {
    hi != [] && |hi| < |tup| && tup[..|hi|] == hi && StartsHigh(tup[|hi|])
  }

  /** The byte bounds are the value bounds, but for the entries cut off. */
  lemma {:induction false} RangeKeysExact(t: Table, d: IndexDef, tup: seq<Value>, pk: Bytes, lo: seq<Value>,
                                          hi: seq<Value>)
    requires ColsOk(t, d.cols) && HasShape(t, d, tup) && Fits(t, d, lo) && Fits(t, d, hi)
    ensures HasPrefix(IK(t, d, tup, pk), ColPrefix(t, d))
    ensures Le(LoKey(t, d, lo), IK(t, d, tup, pk)) && !Past(HiKey(t, d, hi), IK(t, d, tup, pk)) <==>
      InRange(t, d, tup, lo, hi) && !CutOff(tup, hi)
  {
    hide EncodeTuple, IndexColumnPrefix, BigEndian;
    var p := ColPrefix(t, d);
    IndexKeyShape(t.ns, MAIN_NAME, t.name, d.name, EncodeTuple(tup), pk);
    var k := IK(t, d, tup, pk);
    EncodeTupleSplit(tup, |lo|);
    EncodeTupleSplit(tup, |hi|);
    var l, h := EncodeTuple(tup[|lo|..]) + Bin(pk), EncodeTuple(tup[|hi|..]) + Bin(pk);
    assert k == p + (EncodeTuple(tup[..|lo|]) + l);
    assert k == p + (EncodeTuple(tup[..|hi|]) + h);
    LowKeyExact(p, lo, tup[..|lo|], l);
    if hi != [] {
      RestStarts(tup[|hi|..], Bin(pk));
      HighKeyExact(p, hi, tup[..|hi|], h);
      assert p + EncodeTuple(hi) + [0xFF] == p + (EncodeTuple(hi) + [0xFF]);
    }
  }

  lemma {:induction false} LowKeyExact(p: Bytes, lo: seq<Value>, a: seq<Value>, rest: Bytes)
    requires SameShape(lo, a) && SameShape(a, lo)
    ensures Le(p + EncodeTuple(lo), p + (EncodeTuple(a) + rest)) <==> !TupleLess(a, lo)
  {
    hide EncodeTuple;
    var x, y := EncodeTuple(lo), EncodeTuple(a) + rest;
    LtCommonPrefix(p, x, y);
    PrefixCancel(p, x, y);
    TupleLessTotal(a, lo);
    if a == lo {
      PrefixLe(x, y);
    } else {
      TupleDecides(lo, a, [], rest);
      TupleDecides(a, lo, rest, []);
      assert x + [] == x;
      LtTotal(x, y);
      LtIrreflexive(x);
    }
  }

  lemma {:induction false} HighKeyExact(p: Bytes, hi: seq<Value>, a: seq<Value>, rest: Bytes)
    requires SameShape(hi, a) && |rest| > 1
    ensures Lt(p + (EncodeTuple(hi) + [0xFF]), p + (EncodeTuple(a) + rest)) <==>
      TupleLess(hi, a) || (a == hi && rest[0] == 0xFF)
  {
    hide EncodeTuple;
    LtCommonPrefix(p, EncodeTuple(hi) + [0xFF], EncodeTuple(a) + rest);
    TupleLessTotal(hi, a);
    if a == hi {
      LtCommonPrefix(EncodeTuple(hi), [0xFF], rest);
      assert [0xFF][1..] == [] && rest[1..] != [];
    } else {
      TupleDecides(hi, a, [0xFF], rest);
    }
  }

  /** After the leading values comes the next column's encoding, or the slash before the key. */
  lemma {:induction false} RestStarts(vs: seq<Value>, bin: Bytes)
    requires |bin| > 1 && bin[0] == SLASH
    ensures |EncodeTuple(vs) + bin| > 1
    ensures (EncodeTuple(vs) + bin)[0] == 0xFF <==> vs != [] && StartsHigh(vs[0])
  {
    hide OrderEncode, StartsHigh;
    if vs != [] {
      FirstByte(vs[0]);
      assert EncodeTuple(vs)[0] == OrderEncode(vs[0])[0];
    }
  }

  /** What the range returns of a row. */
  ghost predicate InScan(t: Table, d: IndexDef, lo: seq<Value>, hi: seq<Value>, r: Row)
    requires ColsOk(t, d.cols) && Fits(t, d, lo) && Fits(t, d, hi)
  {
    var tup := TupleAt(t, d, r);
    tup.Some? && HasShape(t, d, tup.value) && InRange(t, d, tup.value, lo, hi) && !CutOff(tup.value, hi)
  }

  /** The fetched rows are live, have an entry, and come in index order. */
  lemma {:induction false} RangeScanOrder(t: Table, v: KeyView, d: IndexDef, lo: seq<Value>, hi: seq<Value>,
                                          es: seq<MI.Entry>)
    requires TableOk(t) && InSync(t, v) && d in t.defs && IsScan(es, v, ColPrefix(t, d), LoKey(t, d, lo))
    ensures var rows := Fetch(t, v, es, HiKey(t, d, hi));
      && AscendingBy(rows, r => EntryKey(t, d, r))
      && (forall r :: r in rows ==> LiveRow(t, v, r) && TupleAt(t, d, r).Some?)
  {
    hide InSync, IsScan, LiveRow, TupleAt, EntryKey, ColPrefix, LoKey, HiKey;
    ScanOfIndex(t, v, d, lo, es);
    FetchEntries(t, v, d, es, HiKey(t, d, hi));
  }

  lemma {:induction false} ScanOfIndex(t: Table, v: KeyView, d: IndexDef, lo: seq<Value>, es: seq<MI.Entry>)
    requires IsScan(es, v, ColPrefix(t, d), LoKey(t, d, lo))
    ensures MI.EntriesAscending(es)
    ensures forall i :: 0 <= i < |es| ==> HasPrefix(es[i].0, ColPrefix(t, d)) && v(es[i].0) == Some(es[i].1)
    ensures forall i :: 0 <= i < |es| ==> Le(LoKey(t, d, lo), es[i].0)
  {
    hide ColPrefix, LoKey;
    forall i | 0 <= i < |es|
      ensures HasPrefix(es[i].0, ColPrefix(t, d)) && v(es[i].0) == Some(es[i].1) && Le(LoKey(t, d, lo), es[i].0)
    {
      MI.LookupHits(es, i);
    }
  }

  /** The fetched rows are exactly the live rows with no NULL in the index whose leading values lie
      within the ends, but for those cut off at the upper end. */
  lemma {:induction false} RangeScanRows(t: Table, v: KeyView, d: IndexDef, lo: seq<Value>, hi: seq<Value>,
                                         es: seq<MI.Entry>, r: Row)
    requires TableOk(t) && InSync(t, v) && d in t.defs && IsScan(es, v, ColPrefix(t, d), LoKey(t, d, lo))
    requires Fits(t, d, lo) && Fits(t, d, hi)
    ensures r in Fetch(t, v, es, HiKey(t, d, hi)) <==> LiveRow(t, v, r) && InScan(t, d, lo, hi, r)
  {
    hide InSync, IsScan, LiveRow, TupleAt, IK, ColPrefix, LoKey, HiKey, CutOff, InRange, HasShape, NonNull;
    var rows := Fetch(t, v, es, HiKey(t, d, hi));
    ScanOfIndex(t, v, d, lo, es);
    FetchEntries(t, v, d, es, HiKey(t, d, hi));
    if LiveRow(t, v, r) && TupleAt(t, d, r).Some? {
      LiveTuple(t, v, d, r);
      RangeKeysExact(t, d, TupleAt(t, d, r).value, PkOf(t, r), lo, hi);
      if r in rows {
        var i :| 0 <= i < |rows| && rows[i] == r;
        assert EntryKey(t, d, r) == es[i].0;
      }
      if InScan(t, d, lo, hi, r) {
        ScanFinds(es, v, ColPrefix(t, d), LoKey(t, d, lo), EntryKey(t, d, r));
        var i :| 0 <= i < |es| && es[i].0 == EntryKey(t, d, r);
        assert LiveRow(t, v, rows[i]) && EntryKey(t, d, rows[i]) == EntryKey(t, d, r);
        SameEntrySameRow(t, v, d, rows[i], r);
      }
    }
  }

  lemma {:induction false} SameEntrySameRow(t: Table, v: KeyView, d: IndexDef, a: Row, b: Row)
    requires TableOk(t) && InSync(t, v) && d in t.defs && LiveRow(t, v, a) && LiveRow(t, v, b)
    requires TupleAt(t, d, a).Some? && TupleAt(t, d, b).Some? && EntryKey(t, d, a) == EntryKey(t, d, b)
    ensures a == b
  {
    hide InSync, IK, RK, TupleAt, HasShape;
    LiveTuple(t, v, d, a);
    LiveTuple(t, v, d, b);
    EntryKeysDistinct(t, d, TupleAt(t, d, a).value, PkOf(t, a), d, TupleAt(t, d, b).value, PkOf(t, b));
  }

  // ---- What a plan finds ----

  /** The canonical text of a value: what a stored primary key and a planner constant look like. */
  function CanonicalText(x: Value): Bytes {
    match x
    case Text(s) => s
    case Bool(b) => if b then [116] else [102]
    case Int(i) => Decimal.FormatSigned(i)
  }

  /** A value is read back from its canonical text. */
  lemma {:induction false} CanonicalReadsBack(x: Value)
    ensures Typed(KindOf(x), CanonicalText(x)) == Some(x)
  {
    hide Decimal.FormatSigned, Decimal.IsTruthy, Decimal.ParseInt64, Decimal.TrimSpace;
    match x
    case Text(_) =>
    case Bool(_) => Decimal.TrueAndFalse();
    case Int(i) => Decimal.SignedRoundTrip(i);
  }

  /** The rows a plan fetches. `rowScan` iterates the table, `indexScan` the plan's index range. */
  function PlanRows(t: Table, v: KeyView, p: Plan, rowScan: seq<MI.Entry>, indexScan: seq<MI.Entry>): seq<Row> {
    match p
    case FullScan => RowsOf(t, rowScan)
    case PkGet(x) => var r := RowAt(t, v, CanonicalText(x)); if r.Some? then [r.value] else []
    case IndexRange(d, _, hi, _) => Fetch(t, v, indexScan, HiKey(t, d, hi))
  }

  ghost predicate ScansOk(t: Table, v: KeyView, p: Plan, rowScan: seq<MI.Entry>, indexScan: seq<MI.Entry>) {
    && IsScan(rowScan, v, RowPrefix(t.ns, MAIN_NAME, t.name), RowPrefix(t.ns, MAIN_NAME, t.name))
    && (p.IndexRange? ==> IsScan(indexScan, v, ColPrefix(t, p.def), LoKey(t, p.def, p.lo)))
  }

  /** The plan can find a row it should return: a point get, when the row is stored under the
      constant's canonical text; an index, when no index column of the row is NULL and the row is not
      cut off at the upper end. */
  ghost predicate PlanFinds(t: Table, p: Plan, r: Row) {
    match p
    case FullScan => true
    case PkGet(x) => PkOf(t, r) == CanonicalText(x)
    case IndexRange(d, _, hi, _) => NonNull(t, d, r) && TupleAt(t, d, r).Some? && !CutOff(TupleAt(t, d, r).value, hi)
  }

  ghost predicate FindsAll(t: Table, v: KeyView, where: Option<Expr>, p: Plan) {
    forall r :: LiveRow(t, v, r) && Keeps(t, where, r) ==> PlanFinds(t, p, r)
  }

  lemma {:induction false} KeptInRange(t: Table, where: Option<Expr>, order: Order, p: Plan, r: Row, tup: seq<Value>)
    requires TableOk(t) && Plans(t, where, order, p) && p.IndexRange? && Keeps(t, where, r)
    requires p.def in t.defs && HasShape(t, p.def, tup) && HasTuple(t, p.def, r, tup)
    ensures Fits(t, p.def, p.lo) && Fits(t, p.def, p.hi) && InRange(t, p.def, tup, p.lo, p.hi)
  {
    hide Plans, WhereDriven, HasTuple, Eval;
    if WhereDriven(t, where, p) {
      WhereDrivenSome(t, where, p);
      PlanBoundsSound(t, where.value, order, p, r, tup);
    } else {
      OrderOnlyShape(t, where, order, p);
    }
  }

  lemma {:induction false} WhereDrivenSome(t: Table, where: Option<Expr>, p: Plan)
    requires WhereDriven(t, where, p) && p.IndexRange?
    ensures where.Some?
  {
  }

  /** The filtered rows of an index plan are the live rows the predicate keeps and the plan finds. */
  lemma {:induction false} RangePlanMembers(t: Table, v: KeyView, where: Option<Expr>, order: Order, p: Plan,
                                            indexScan: seq<MI.Entry>, r: Row)
    requires TableOk(t) && InSync(t, v) && Plans(t, where, order, p) && p.IndexRange?
    requires IsScan(indexScan, v, ColPrefix(t, p.def), LoKey(t, p.def, p.lo))
    ensures r in Filter(t, where, Fetch(t, v, indexScan, HiKey(t, p.def, p.hi))) <==>
      LiveRow(t, v, r) && Keeps(t, where, r) && PlanFinds(t, p, r)
  {
    hide InSync, IsScan, LiveRow, Fetch, HiKey, LoKey, ColPrefix, Keeps, TupleAt, HasShape, HasTuple, NonNull, CutOff,
      InRange, Plans;
    PlanIndexOk(t, where, order, p);
    FilterMembers(t, where, Fetch(t, v, indexScan, HiKey(t, p.def, p.hi)), r);
    RangeScanOrder(t, v, p.def, p.lo, p.hi, indexScan);
    if LiveRow(t, v, r) && Keeps(t, where, r) && TupleAt(t, p.def, r).Some? {
      LiveTuple(t, v, p.def, r);
      KeptInRange(t, where, order, p, r, TupleAt(t, p.def, r).value);
      RangeScanRows(t, v, p.def, p.lo, p.hi, indexScan, r);
    }
  }

  lemma {:induction false} FullScanMembers(t: Table, v: KeyView, where: Option<Expr>, p: Plan,
                                           rowScan: seq<MI.Entry>, indexScan: seq<MI.Entry>, r: Row)
    requires TableOk(t) && InSync(t, v) && ScansOk(t, v, p, rowScan, indexScan)
    ensures r in Filter(t, where, RowsOf(t, rowScan)) <==> LiveRow(t, v, r) && Keeps(t, where, r)
  {
    hide InSync, IsScan, LiveRow, RowsOf, Keeps, RowPrefix;
    FullScanRows(t, v, rowScan);
    FilterMembers(t, where, RowsOf(t, rowScan), r);
  }

  lemma {:induction false} PointGetMembers(t: Table, v: KeyView, where: Option<Expr>, x: Value, r: Row)
    requires TableOk(t) && InSync(t, v)
    ensures var got := RowAt(t, v, CanonicalText(x));
      r in Filter(t, where, if got.Some? then [got.value] else []) <==>
      LiveRow(t, v, r) && Keeps(t, where, r) && PkOf(t, r) == CanonicalText(x)
  {
    hide Keeps, RK, TupleOf, CanonicalText;
    var pk := CanonicalText(x);
    FilterMembers(t, where, if RowAt(t, v, pk).Some? then [RowAt(t, v, pk).value] else [], r);
    if RowAt(t, v, pk).Some? {
      assert LiveRow(t, v, RowAt(t, v, pk).value) by { assert v(RK(t, pk)).Some?; }
    }
  }

  /** For every plan: the filtered rows are the live rows the predicate keeps and the plan finds. */
  lemma {:induction false} PlanMembers(t: Table, v: KeyView, where: Option<Expr>, order: Order, p: Plan,
                                       rowScan: seq<MI.Entry>, indexScan: seq<MI.Entry>, r: Row)
    requires TableOk(t) && InSync(t, v) && Plans(t, where, order, p) && ScansOk(t, v, p, rowScan, indexScan)
    ensures r in Filter(t, where, PlanRows(t, v, p, rowScan, indexScan)) <==>
      LiveRow(t, v, r) && Keeps(t, where, r) && PlanFinds(t, p, r)
  {
    hide InSync, IsScan, LiveRow, Filter, Fetch, RowsOf, Keeps, RowAt, CanonicalText, NonNull, TupleAt, CutOff, Plans,
      HiKey, LoKey, ColPrefix, RowPrefix;
    match p
    case FullScan => FullScanMembers(t, v, where, p, rowScan, indexScan, r);
    case PkGet(x) => PointGetMembers(t, v, where, x, r);
    case IndexRange(_, _, _, _) => RangePlanMembers(t, v, where, order, p, indexScan, r);
  }

  // ---- The theorems ----

  lemma {:induction false} AscendingIsDistinct(rows: seq<Row>, f: Row -> Bytes)
    requires AscendingBy(rows, f)
    ensures Distinct(rows)
  {
    forall i, j | 0 <= i < j < |rows| ensures rows[i] != rows[j] {
      LtIrreflexive(f(rows[i]));
    }
  }

  lemma {:induction false} SameMultisetIff(a: seq<Row>, b: seq<Row>)
    requires Distinct(a) && Distinct(b)
    ensures multiset(a) == multiset(b) <==> SameMembers(a, b)
  {
    if SameMembers(a, b) {
      DistinctSameMembers(a, b);
    }
    if multiset(a) == multiset(b) {
      forall r ensures r in a <==> r in b {
        assert r in a <==> r in multiset(a);
        assert r in b <==> r in multiset(b);
      }
    }
  }

  lemma {:induction false} FullScanDistinct(t: Table, v: KeyView, w: Option<Expr>, p: Plan,
                                            rowScan: seq<MI.Entry>, indexScan: seq<MI.Entry>)
    requires TableOk(t) && InSync(t, v) && ScansOk(t, v, p, rowScan, indexScan)
    ensures AscendingBy(Filter(t, w, RowsOf(t, rowScan)), r => ScanKey(t, r))
    ensures Distinct(Filter(t, w, RowsOf(t, rowScan)))
  {
    hide InSync, IsScan, LiveRow, Filter, RowsOf, ScanKey, AscendingBy;
    FullScanRows(t, v, rowScan);
    FilterAscends(t, w, RowsOf(t, rowScan), r => ScanKey(t, r));
    AscendingIsDistinct(Filter(t, w, RowsOf(t, rowScan)), r => ScanKey(t, r));
  }

  lemma {:induction false} RangePlanAscends(t: Table, v: KeyView, w: Option<Expr>, order: Order, p: Plan,
                                            rowScan: seq<MI.Entry>, indexScan: seq<MI.Entry>)
    requires TableOk(t) && InSync(t, v) && Plans(t, w, order, p) && p.IndexRange?
    requires ScansOk(t, v, p, rowScan, indexScan)
    ensures AscendingBy(Filter(t, w, PlanRows(t, v, p, rowScan, indexScan)), r => EntryKey(t, p.def, r))
  {
    hide InSync, IsScan, LiveRow, TupleAt, EntryKey, Fetch, Filter, AscendingBy, HiKey, LoKey, ColPrefix, RowPrefix,
      Plans;
    PlanIndexOk(t, w, order, p);
    RangeScanOrder(t, v, p.def, p.lo, p.hi, indexScan);
    FilterAscends(t, w, PlanRows(t, v, p, rowScan, indexScan), r => EntryKey(t, p.def, r));
  }

  lemma {:induction false} PlanRowsDistinct(t: Table, v: KeyView, w: Option<Expr>, order: Order, p: Plan,
                                            rowScan: seq<MI.Entry>, indexScan: seq<MI.Entry>)
    requires TableOk(t) && InSync(t, v) && Plans(t, w, order, p) && ScansOk(t, v, p, rowScan, indexScan)
    ensures Distinct(Filter(t, w, PlanRows(t, v, p, rowScan, indexScan)))
  {
    hide InSync, IsScan, LiveRow, EntryKey, ScanKey, Fetch, Plans, ScansOk;
    var rows := PlanRows(t, v, p, rowScan, indexScan);
    match p
    case FullScan => FullScanDistinct(t, v, w, p, rowScan, indexScan);
    case PkGet(_) =>
    case IndexRange(d, _, _, _) =>
      RangePlanAscends(t, v, w, order, p, rowScan, indexScan);
      AscendingIsDistinct(Filter(t, w, rows), r => EntryKey(t, d, r));
  }

  /** Filtering the plan's rows and filtering the full scan give the same multiset. */
  ghost predicate SameRows(t: Table, v: KeyView, where: Option<Expr>, p: Plan,
                           rowScan: seq<MI.Entry>, indexScan: seq<MI.Entry>) {
    var a, b := Filter(t, where, PlanRows(t, v, p, rowScan, indexScan)), Filter(t, where, RowsOf(t, rowScan));
    multiset(a) == multiset(b)
  }

  lemma {:induction false} SameMembersIff(t: Table, v: KeyView, where: Option<Expr>, order: Order, p: Plan,
                                          rowScan: seq<MI.Entry>, indexScan: seq<MI.Entry>)
    requires TableOk(t) && InSync(t, v) && Plans(t, where, order, p) && ScansOk(t, v, p, rowScan, indexScan)
    ensures var a, b := Filter(t, where, PlanRows(t, v, p, rowScan, indexScan)), Filter(t, where, RowsOf(t, rowScan));
      SameMembers(a, b) <==> FindsAll(t, v, where, p)
  {
    hide InSync, LiveRow, Filter, RowsOf, PlanRows, Keeps, PlanFinds, Plans, ScansOk;
    var a, b := Filter(t, where, PlanRows(t, v, p, rowScan, indexScan)), Filter(t, where, RowsOf(t, rowScan));
    forall r
      ensures r in a <==> LiveRow(t, v, r) && Keeps(t, where, r) && PlanFinds(t, p, r)
      ensures r in b <==> LiveRow(t, v, r) && Keeps(t, where, r)
    {
      PlanMembers(t, v, where, order, p, rowScan, indexScan, r);
      FullScanMembers(t, v, where, p, rowScan, indexScan, r);
    }
    if SameMembers(a, b) {
      forall r | LiveRow(t, v, r) && Keeps(t, where, r) ensures PlanFinds(t, p, r) {
        assert r in b;
      }
    }
  }

  /** Index plans are accelerators: for every predicate, every ORDER BY and every plan the planner may
      choose from them, re-applying the predicate gives the multiset a full scan gives if and only if
      the plan finds every row the predicate keeps. */
  lemma {:induction false} PlanReturnsSameRows(t: Table, v: KeyView, where: Option<Expr>, order: Order, p: Plan,
                                               rowScan: seq<MI.Entry>, indexScan: seq<MI.Entry>)
    requires TableOk(t) && InSync(t, v) && Plans(t, where, order, p) && ScansOk(t, v, p, rowScan, indexScan)
    ensures SameRows(t, v, where, p, rowScan, indexScan) <==> FindsAll(t, v, where, p)
  {
    hide InSync, Plans, ScansOk, Filter, PlanRows, RowsOf, FindsAll, Distinct, SameMembers;
    SameMembersIff(t, v, where, order, p, rowScan, indexScan);
    FullScanDistinct(t, v, where, p, rowScan, indexScan);
    PlanRowsDistinct(t, v, where, order, p, rowScan, indexScan);
    SameMultisetIff(Filter(t, where, PlanRows(t, v, p, rowScan, indexScan)), Filter(t, where, RowsOf(t, rowScan)));
  }

  /** An index on one column, or an equality on every column of an index, always finds what WHERE
      keeps. */
  lemma {:induction false} WholeTuplePlanFindsAll(t: Table, v: KeyView, where: Expr, order: Order, p: Plan)
    requires TableOk(t) && InSync(t, v) && Plans(t, Some(where), order, p) && p.IndexRange?
    requires WhereDriven(t, Some(where), p) && (|p.def.cols| == 1 || |p.hi| == |p.def.cols|)
    ensures FindsAll(t, v, Some(where), p)
  {
    hide InSync, LiveRow, TupleAt, Plans;
    PlanIndexOk(t, Some(where), order, p);
    forall r | LiveRow(t, v, r) && Keeps(t, Some(where), r) ensures PlanFinds(t, p, r) {
      KeptHasColumns(t, where, order, p, r);
      LiveTuple(t, v, p.def, r);
    }
  }

  /** A predicate that drives a single-column or whole-tuple plan keeps no row with a NULL there. */
  lemma {:induction false} KeptHasColumns(t: Table, where: Expr, order: Order, p: Plan, r: Row)
    requires Plans(t, Some(where), order, p) && p.IndexRange? && Eval(t, r, where) == Some(true)
    requires WhereDriven(t, Some(where), p) && (|p.def.cols| == 1 || |p.hi| == |p.def.cols|)
    ensures NonNull(t, p.def, r)
  {
    hide ColValue, Eval;
    if CompositePlan(t, where) == Some(p) {
      forall i | 0 <= i < |p.def.cols| ensures ColValue(t, r, p.def.cols[i]).Some? {
        EqualitiesSound(t, r, where, p.def.cols[i]);
      }
    } else if EqualityPlan(t, where, p) {
      EqualitiesSound(t, r, where, p.def.cols[0]);
    } else {
      BoundsSound(t, r, where);
    }
  }

  /** An index chosen for ORDER BY alone: on one column it finds all exactly when no kept row is NULL
      there. */
  lemma {:induction false} OrderOnlyPlanIff(t: Table, v: KeyView, where: Option<Expr>, order: Order, p: Plan)
    requires TableOk(t) && InSync(t, v) && Plans(t, where, order, p) && p.IndexRange? && !WhereDriven(t, where, p)
    requires |p.def.cols| == 1
    ensures FindsAll(t, v, where, p) <==>
      forall r :: LiveRow(t, v, r) && Keeps(t, where, r) ==> ColValue(t, r, p.def.cols[0]).Some?
  {
    hide InSync, LiveRow, TupleAt, Plans, WhereDriven, ColValue, Keeps;
    PlanIndexOk(t, where, order, p);
    OrderOnlyShape(t, where, order, p);
    forall r | LiveRow(t, v, r) && Keeps(t, where, r)
      ensures PlanFinds(t, p, r) <==> ColValue(t, r, p.def.cols[0]).Some?
    {
      LiveTuple(t, v, p.def, r);
    }
  }

  // ---- Skipping the sort ----

  /** Index order is tuple order, and scan order among equal tuples. */
  lemma {:induction false} EntryOrder(t: Table, d: IndexDef, a: Row, b: Row)
    requires TableOk(t) && d in t.defs && TupleAt(t, d, a).Some? && TupleAt(t, d, b).Some?
    requires HasShape(t, d, TupleAt(t, d, a).value) && HasShape(t, d, TupleAt(t, d, b).value)
    ensures var (x, y) := (TupleAt(t, d, a).value, TupleAt(t, d, b).value);
      && SameShape(x, y)
      && (Lt(EntryKey(t, d, a), EntryKey(t, d, b)) <==> TupleLess(x, y) || (x == y && Lt(ScanKey(t, a), ScanKey(t, b))))
  {
    hide EncodeTuple, IndexKey, RowKey, TupleAt;
    var (x, y) := (TupleAt(t, d, a).value, TupleAt(t, d, b).value);
    ShapesAgree(t, d, x, y);
    IndexKeyOrder(t.ns, MAIN_NAME, t.name, d.name, x, PkOf(t, a), y, PkOf(t, b));
    RowKeyOrder(t.ns, MAIN_NAME, t.name, PkOf(t, a), PkOf(t, b));
  }

  /** A live row of the index as the sort sees it. */
  lemma {:induction false} LeadingValue(t: Table, v: KeyView, d: IndexDef, r: Row)
    requires TableOk(t) && InSync(t, v) && d in t.defs && d.cols != [] && LiveRow(t, v, r) && TupleAt(t, d, r).Some?
    ensures HasShape(t, d, TupleAt(t, d, r).value)
    ensures HasValue(t, d.cols[0], r) && ColValue(t, r, d.cols[0]) == Some(TupleAt(t, d, r).value[0])
  {
    hide TupleAt, InSync, LiveRow, ColValue;
    LiveTuple(t, v, d, r);
  }

  /** Index order and sort order can differ only among rows with the same leading value. */
  lemma {:induction false} IndexOrderIsSortOrder(t: Table, v: KeyView, d: IndexDef, a: Row, b: Row)
    requires TableOk(t) && InSync(t, v) && d in t.defs && d.cols != []
    requires LiveRow(t, v, a) && LiveRow(t, v, b) && TupleAt(t, d, a).Some? && TupleAt(t, d, b).Some?
    requires Lt(EntryKey(t, d, a), EntryKey(t, d, b))
    ensures var same := ColValue(t, a, d.cols[0]) == ColValue(t, b, d.cols[0]);
      Lt(SortKey(t, d, d.cols[0], a), SortKey(t, d, d.cols[0], b)) <==> !same || Lt(ScanKey(t, a), ScanKey(t, b))
    ensures |d.cols| == 1 ==> Lt(SortKey(t, d, d.cols[0], a), SortKey(t, d, d.cols[0], b))
  {
    hide TupleAt, InSync, LiveRow, ColValue, EntryKey, SortKey, ScanKey;
    LeadingValue(t, v, d, a);
    LeadingValue(t, v, d, b);
    EntryOrder(t, d, a, b);
    SortOrder(t, d, d.cols[0], a, b);
    var (x, y) := (TupleAt(t, d, a).value, TupleAt(t, d, b).value);
    LessTotal(x[0], y[0]);
    if |d.cols| == 1 && x[0] == y[0] {
      assert x[1..] == [] && y[1..] == [];
    }
  }

  /** Among kept rows with the same leading value, index order is scan order. */
  ghost predicate TiesAgree(t: Table, v: KeyView, where: Option<Expr>, d: IndexDef)
    requires d.cols != []
  {
    forall a, b :: Tied(t, v, where, d, a, b) ==> Lt(ScanKey(t, a), ScanKey(t, b))
  }

  ghost predicate Tied(t: Table, v: KeyView, where: Option<Expr>, d: IndexDef, a: Row, b: Row)
    requires d.cols != []
  {
    && LiveRow(t, v, a) && LiveRow(t, v, b) && Keeps(t, where, a) && Keeps(t, where, b)
    && ColValue(t, a, d.cols[0]) == ColValue(t, b, d.cols[0]) && Lt(EntryKey(t, d, a), EntryKey(t, d, b))
  }

  /** Rows in sort order are the stable sort of the same rows in scan order. */
  lemma {:induction false} SortMatches(t: Table, d: IndexDef, col: nat, a: seq<Row>, b: seq<Row>)
    requires AscendingBy(b, r => ScanKey(t, r)) && SameMembers(a, b) && forall r :: r in b ==> HasValue(t, col, r)
    ensures a == StableSort(t, col, b) <==> AscendingBy(a, r => SortKey(t, d, col, r))
  {
    hide SortKey, ScanKey, HasValue;
    StableSortAscends(t, d, col, b);
    forall r ensures r in a <==> r in StableSort(t, col, b) {
      StableSortMembers(t, col, b, r);
    }
    if AscendingBy(a, r => SortKey(t, d, col, r)) {
      AscendingListsEqual(a, StableSort(t, col, b), r => SortKey(t, d, col, r));
    }
  }

  /** A list in index order is in sort order exactly when its ties are in scan order. */
  lemma {:induction false} TiesDecide(t: Table, v: KeyView, where: Option<Expr>, d: IndexDef, a: seq<Row>)
    requires TableOk(t) && InSync(t, v) && d in t.defs && d.cols != [] && AscendingBy(a, r => EntryKey(t, d, r))
    requires forall r :: r in a <==> LiveRow(t, v, r) && Keeps(t, where, r)
    requires forall r :: r in a ==> TupleAt(t, d, r).Some?
    ensures AscendingBy(a, r => SortKey(t, d, d.cols[0], r)) <==> TiesAgree(t, v, where, d)
  {
    hide InSync, LiveRow, Keeps, TupleAt, EntryKey, SortKey, ScanKey, ColValue;
    var f, g := r => EntryKey(t, d, r), r => SortKey(t, d, d.cols[0], r);
    if TiesAgree(t, v, where, d) {
      forall i, j | 0 <= i < j < |a| ensures Lt(g(a[i]), g(a[j])) {
        assert a[i] in a && a[j] in a && Lt(f(a[i]), f(a[j]));
        assert ColValue(t, a[i], d.cols[0]) == ColValue(t, a[j], d.cols[0]) ==> Tied(t, v, where, d, a[i], a[j]);
        IndexOrderIsSortOrder(t, v, d, a[i], a[j]);
      }
    }
    if AscendingBy(a, g) {
      forall x, y | Tied(t, v, where, d, x, y) ensures Lt(ScanKey(t, x), ScanKey(t, y)) {
        assert x in a && y in a;
        var i :| 0 <= i < |a| && a[i] == x;
        var j :| 0 <= j < |a| && a[j] == y;
        EarlierByKey(a, f, i, j);
        assert Lt(g(a[i]), g(a[j]));
        IndexOrderIsSortOrder(t, v, d, x, y);
      }
    }
  }

  lemma {:induction false} EarlierByKey(a: seq<Row>, f: Row -> Bytes, i: nat, j: nat)
    requires AscendingBy(a, f) && i < |a| && j < |a| && Lt(f(a[i]), f(a[j]))
    ensures i < j
  {
    LtTotal(f(a[i]), f(a[j]));
    LtIrreflexive(f(a[i]));
  }

  /** When the planner says the rows are already ordered, for WHERE plans and ORDER BY plans alike:
      they are the very sequence the stable sort of the full scan would give, if and only if the plan
      finds every kept row and index order is scan order among kept rows that tie. */
  lemma {:induction false} OrderedPlanIff(t: Table, v: KeyView, where: Option<Expr>, order: Order, p: Plan,
                                          rowScan: seq<MI.Entry>, indexScan: seq<MI.Entry>)
    requires TableOk(t) && InSync(t, v) && Plans(t, where, order, p) && ScansOk(t, v, p, rowScan, indexScan)
    requires p.IndexRange? && p.ordered
    ensures order.ByColumn? && p.def.cols != []
    ensures IsTheSort(t, v, where, order.col, p, rowScan, indexScan) <==>
      FindsAll(t, v, where, p) && TiesAgree(t, v, where, p.def)
  {
    hide InSync, Plans, ScansOk, Filter, PlanRows, RowsOf, SameMembers, AscendingBy, TiesAgree, FindsAll, HasValue;
    PlanIndexOk(t, where, order, p);
    var d, col := p.def, order.col;
    var a, b := Filter(t, where, PlanRows(t, v, p, rowScan, indexScan)), Filter(t, where, RowsOf(t, rowScan));
    SameMembersIff(t, v, where, order, p, rowScan, indexScan);
    RangePlanAscends(t, v, where, order, p, rowScan, indexScan);
    FullScanDistinct(t, v, where, p, rowScan, indexScan);
    if IsTheSort(t, v, where, col, p, rowScan, indexScan) {
      SortedSameMembers(t, col, a, b);
    }
    if FindsAll(t, v, where, p) {
      FoundMembers(t, v, where, order, p, rowScan, indexScan);
      SortMatches(t, d, col, a, b);
      TiesDecide(t, v, where, d, a);
    }
  }

  ghost predicate IsTheSort(t: Table, v: KeyView, where: Option<Expr>, col: nat, p: Plan,
                            rowScan: seq<MI.Entry>, indexScan: seq<MI.Entry>) {
    var a, b := Filter(t, where, PlanRows(t, v, p, rowScan, indexScan)), Filter(t, where, RowsOf(t, rowScan));
    a == StableSort(t, col, b)
  }

  lemma {:induction false} SortedSameMembers(t: Table, col: nat, a: seq<Row>, b: seq<Row>)
    requires a == StableSort(t, col, b)
    ensures SameMembers(a, b)
  {
    forall r ensures r in a <==> r in b {
      StableSortMembers(t, col, b, r);
    }
  }

  lemma {:induction false} FoundMembers(t: Table, v: KeyView, where: Option<Expr>, order: Order, p: Plan,
                                        rowScan: seq<MI.Entry>, indexScan: seq<MI.Entry>)
    requires TableOk(t) && InSync(t, v) && Plans(t, where, order, p) && ScansOk(t, v, p, rowScan, indexScan)
    requires p.IndexRange? && p.def in t.defs && p.def.cols != [] && FindsAll(t, v, where, p)
    ensures var a, b := Filter(t, where, PlanRows(t, v, p, rowScan, indexScan)), Filter(t, where, RowsOf(t, rowScan));
      && (forall r :: r in a <==> LiveRow(t, v, r) && Keeps(t, where, r))
      && (forall r :: r in a ==> TupleAt(t, p.def, r).Some?)
      && (forall r :: r in b ==> HasValue(t, p.def.cols[0], r))
  {
    hide InSync, LiveRow, Filter, RowsOf, PlanRows, Keeps, Plans, ScansOk, TupleAt, HasValue, NonNull, CutOff, HasShape;
    forall r | LiveRow(t, v, r) && Keeps(t, where, r)
      ensures PlanFinds(t, p, r) && TupleAt(t, p.def, r).Some? && HasValue(t, p.def.cols[0], r)
    {
      LeadingValue(t, v, p.def, r);
    }
    forall r
      ensures r in Filter(t, where, PlanRows(t, v, p, rowScan, indexScan)) <==> LiveRow(t, v, r) && Keeps(t, where, r)
      ensures r in Filter(t, where, RowsOf(t, rowScan)) <==> LiveRow(t, v, r) && Keeps(t, where, r)
    {
      PlanMembers(t, v, where, order, p, rowScan, indexScan, r);
      FullScanMembers(t, v, where, p, rowScan, indexScan, r);
    }
  }

  /** On a single-column index ties are already in scan order, so with a WHERE on the ordered column
      the sort is skipped safely, always. */
  lemma {:induction false} OrderedPlanIsTheSort(t: Table, v: KeyView, where: Expr, order: Order, p: Plan,
                                                rowScan: seq<MI.Entry>, indexScan: seq<MI.Entry>)
    requires TableOk(t) && InSync(t, v) && Plans(t, Some(where), order, p) && ScansOk(t, v, p, rowScan, indexScan)
    requires p.IndexRange? && p.ordered && WhereDriven(t, Some(where), p) && |p.def.cols| == 1
    ensures order.ByColumn? && IsTheSort(t, v, Some(where), order.col, p, rowScan, indexScan)
  {
    hide InSync, Plans, ScansOk, WhereDriven, IsTheSort, FindsAll;
    PlanIndexOk(t, Some(where), order, p);
    WholeTuplePlanFindsAll(t, v, where, order, p);
    SingleColumnTies(t, v, Some(where), order, p);
    OrderedPlanIff(t, v, Some(where), order, p, rowScan, indexScan);
  }

  lemma {:induction false} SingleColumnTies(t: Table, v: KeyView, where: Option<Expr>, order: Order, p: Plan)
    requires TableOk(t) && InSync(t, v) && p.IndexRange? && p.def in t.defs && |p.def.cols| == 1
    requires FindsAll(t, v, where, p)
    ensures TiesAgree(t, v, where, p.def)
  {
    hide InSync, LiveRow, Keeps, TupleAt, EntryKey, SortKey, ScanKey, ColValue, NonNull, CutOff;
    var d := p.def;
    forall a, b | Tied(t, v, where, d, a, b) ensures Lt(ScanKey(t, a), ScanKey(t, b)) {
      assert PlanFinds(t, p, a) && PlanFinds(t, p, b);
      IndexOrderIsSortOrder(t, v, d, a, b);
    }
  }
}
