/** Index plans in the runs of the transaction engine (engine/internal/executor/index_scan.go over
    engine/internal/transactions): which SELECTs of which transactions the plans of IndexScan serve
    exactly, what decides it, and rows that are lost otherwise. */
module IndexSelect {
  import opened Bytes
  import opened Versions
  import opened OrderEncoding
  import opened Keys
  import opened IndexMaintenance
  import opened QueryPlan
  import opened IndexScan
  import IR = IndexRuns
  import MI = MergeIterator
  import SI = SnapshotIsolation
  import RC = RowCodec
  import Decimal

  // ---- Primary keys as written ----

  /** The key's text is the canonical spelling of its value. */
  predicate CanonicalPk(t: Table, pk: Bytes) {
    t.pk < |t.kinds| ==> pk == CanonicalText(CellValue(t.kinds[t.pk], RC.Text(pk)).value)
  }

  ghost predicate CanonicalKeys(t: Table, v: KeyView) {
    forall pk :: v(RK(t, pk)).Some? ==> CanonicalPk(t, pk)
  }

  /** Every point get of every query finds its rows. */
  ghost predicate PointGetsFind(t: Table, v: KeyView) {
    forall where, order, p :: Plans(t, Some(where), order, p) && p.PkGet? ==> FindsAll(t, v, Some(where), p)
  }

  lemma {:induction false} LivePk(t: Table, v: KeyView, r: Row)
    requires TableOk(t) && InSync(t, v) && LiveRow(t, v, r)
    ensures v(RK(t, PkOf(t, r))).Some? && t.pk < |t.kinds| && |r| == |t.kinds|
    ensures ColValue(t, r, t.pk) == CellValue(t.kinds[t.pk], RC.Text(PkOf(t, r)))
  {
    hide RK;
    assert v(RK(t, PkOf(t, r))).Some?;
  }

  lemma {:induction false} PkGetValue(t: Table, where: Expr, order: Order, x: Value, r: Row)
    requires Plans(t, Some(where), order, PkGet(x)) && Keeps(t, Some(where), r)
    ensures ColValue(t, r, t.pk) == Some(x)
  {
    hide ColValue, Eval;
    BoundsSound(t, r, where);
    var b := ExtractColBounds(where).value;
    LessTotal(x, ColValue(t, r, t.pk).value);
  }

  /** Whether point gets are exact is decided by the stored keys alone: every query that the planner
      serves by a point get finds its rows if and only if every stored key is in canonical spelling. */
  lemma {:induction false} PointGetsFindIff(t: Table, v: KeyView)
    requires TableOk(t) && InSync(t, v)
    ensures PointGetsFind(t, v) <==> CanonicalKeys(t, v)
  {
    hide InSync, LiveRow, Plans, Keeps, RK, CanonicalText, CellValue, ColValue;
    if CanonicalKeys(t, v) {
      forall where, order, p | Plans(t, Some(where), order, p) && p.PkGet? ensures FindsAll(t, v, Some(where), p) {
        forall r | LiveRow(t, v, r) && Keeps(t, Some(where), r) ensures PlanFinds(t, p, r) {
          PkGetValue(t, where, order, p.val, r);
          LivePk(t, v, r);
        }
      }
    }
    if PointGetsFind(t, v) {
      forall pk | v(RK(t, pk)).Some? ensures CanonicalPk(t, pk) {
        StoredKeyQuery(t, v, pk);
      }
    }
  }

  /** The query `pk = value`, sorted by an expression, is a point get that keeps the stored row. */
  lemma {:induction false} StoredKeyQuery(t: Table, v: KeyView, pk: Bytes)
    requires TableOk(t) && InSync(t, v) && v(RK(t, pk)).Some? && PointGetsFind(t, v)
    ensures CanonicalPk(t, pk)
  {
    hide RK, CanonicalText, TupleOf, Typed;
    var r := RowAt(t, v, pk).value;
    assert LiveRow(t, v, r) && PkOf(t, r) == pk;
    var x := ColValue(t, r, t.pk).value;
    var where := Cmp(Eq, Col(t.pk), Const(Some(x)));
    assert Plans(t, Some(where), ByOther, PkGet(x));
    assert Keeps(t, Some(where), r);
    assert FindsAll(t, v, Some(where), PkGet(x));
    assert PlanFinds(t, PkGet(x), r);
  }

  /** A text primary key is its own canonical spelling. */
  lemma {:induction false} TextKeysCanonical(t: Table, v: KeyView)
    requires t.pk < |t.kinds| && t.kinds[t.pk].KText?
    ensures CanonicalKeys(t, v)
  {
  }

  // ---- Rows that are lost otherwise ----

  /** The view of a table holding one row and that row's index entries. */
  ghost function OneRow(t: Table, row: Row): KeyView {
    k => if k == RK(t, PkOf(t, row)) then Some(RC.EncodeRow(row))
         else if EntryOf(t, row, k) then Some(PkOf(t, row)) else None
  }

  ghost predicate EntryOf(t: Table, row: Row, k: Key) {
    exists d :: d in t.defs && TupleAt(t, d, row).Some? && k == EntryKey(t, d, row)
  }

  lemma {:induction false} EntryOfShape(t: Table, row: Row, d: IndexDef, tup: seq<Value>, pk: Bytes)
    requires TableOk(t) && |row| == |t.kinds| && d in t.defs && HasShape(t, d, tup)
    ensures EntryOf(t, row, IK(t, d, tup, pk)) <==> TupleIn(t, d, Some(row)) == Some(tup) && pk == PkOf(t, row)
  {
    hide IK, TupleOf;
    if EntryOf(t, row, IK(t, d, tup, pk)) {
      var e :| e in t.defs && TupleAt(t, e, row).Some? && IK(t, d, tup, pk) == EntryKey(t, e, row);
      TupleHasShape(t, e.cols, row);
      EntryKeysDistinct(t, d, tup, pk, e, TupleAt(t, e, row).value, PkOf(t, row));
    }
    if TupleIn(t, d, Some(row)) == Some(tup) && pk == PkOf(t, row) {
      assert IK(t, d, tup, pk) == EntryKey(t, d, row);
    }
  }

  lemma {:induction false} EntryOfIsEntry(t: Table, row: Row, k: Key)
    requires TableOk(t) && |row| == |t.kinds| && EntryOf(t, row, k)
    ensures EntryForm(t, k) && forall pk :: k != RK(t, pk)
  {
    hide IK, TupleOf, RK;
    var d :| d in t.defs && TupleAt(t, d, row).Some? && k == EntryKey(t, d, row);
    var tup := TupleAt(t, d, row).value;
    TupleHasShape(t, d.cols, row);
    forall pk ensures k != RK(t, pk) { RowAndEntryDistinct(t, pk, d, tup, PkOf(t, row)); }
    assert k == IK(t, d, tup, PkOf(t, row));
  }

  /** The one-row view is a state the engine can be in. */
  lemma {:induction false} OneRowInSync(t: Table, row: Row)
    requires TableOk(t) && RowOk(t, row, PkOf(t, row))
    ensures InSync(t, OneRow(t, row)) && LiveRow(t, OneRow(t, row), row)
  {
    hide RK, IK, TupleOf, RC.EncodeRow, RC.DecodeRow, EntryOf, OwnForm;
    var v, own := OneRow(t, row), PkOf(t, row);
    OneRowAt(t, row);
    forall d, tup, pk | d in t.defs && HasShape(t, d, tup)
      ensures v(IK(t, d, tup, pk)) == if TupleIn(t, d, RowAt(t, v, pk)) == Some(tup) then Some(pk) else None
    {
      EntryOfShape(t, row, d, tup, pk);
      RowAndEntryDistinct(t, own, d, tup, pk);
    }
    forall k | v(k).Some? ensures OwnForm(t, k) {
      OneRowForms(t, row, k);
    }
  }

  lemma {:induction false} OneRowForms(t: Table, row: Row, k: Key)
    requires TableOk(t) && |row| == |t.kinds| && OneRow(t, row)(k).Some?
    ensures OwnForm(t, k)
  {
    hide RK, EntryForm, EntryOf;
    if k != RK(t, PkOf(t, row)) { EntryOfIsEntry(t, row, k); }
  }

  lemma {:induction false} OneRowAt(t: Table, row: Row)
    requires TableOk(t) && RowOk(t, row, PkOf(t, row))
    ensures forall pk :: RowAt(t, OneRow(t, row), pk) == if pk == PkOf(t, row) then Some(row) else None
    ensures forall pk :: OneRow(t, row)(RK(t, pk)).Some? ==> pk == PkOf(t, row)
  {
    hide RK, RC.EncodeRow, RC.DecodeRow, EntryOf;
    var v := OneRow(t, row);
    RC.RowRoundTrip(row);
    forall pk
      ensures RowAt(t, v, pk) == if pk == PkOf(t, row) then Some(row) else None
      ensures v(RK(t, pk)).Some? ==> pk == PkOf(t, row)
    {
      RowKeysDistinct(t, pk, PkOf(t, row));
      if EntryOf(t, row, RK(t, pk)) { EntryOfIsEntry(t, row, RK(t, pk)); }
    }
  }

  /** A table (a, b, c) with primary key a and one index. */
  function Abc(ns: Bytes, name: Bytes, cols: seq<nat>): Table {
    Table(ns, name, [KInt, KInt, KInt], 0, [IndexDef([], cols)])
  }

  lemma {:induction false} OneIs1()
    ensures Typed(KInt, [49]) == Some(Int(1))
  {
    assert Decimal.Value([49]) == 1 by { assert [49][..0] == []; }
  }

  /** INSERT keeps a key as it was written. A row whose integer key was given as '07' is kept by id = 7,
      and the point get for 7 does not find it. */
  lemma {:induction false} PointGetMissesUncanonicalKey(ns: Bytes, name: Bytes)
    ensures
      var t, row := Table(ns, name, [KInt], 0, []), [RC.Text([48, 55])];
      var where, p := Cmp(Eq, Col(0), Const(Some(Int(7)))), PkGet(Int(7));
      && InSync(t, OneRow(t, row)) && LiveRow(t, OneRow(t, row), row) && Keeps(t, Some(where), row)
      && Plans(t, Some(where), Unsorted, p) && PlanRows(t, OneRow(t, row), p, [], []) == []
  {
    var t, row := Table(ns, name, [KInt], 0, []), [RC.Text([48, 55])];
    hide RK, RC.EncodeRow, RC.DecodeRow, LiveRow, RowAt, Typed, CanonicalText, InSync, OneRow, Plans, Keeps;
    OneRowInSync(t, row);
    OneRowAt(t, row);
    SevenIs7();
    SevenQuery(t, row);
  }

  lemma {:induction false} SevenQuery(t: Table, row: Row)
    requires t == Table(t.ns, t.name, [KInt], 0, []) && row == [RC.Text([48, 55])]
    ensures var where := Cmp(Eq, Col(0), Const(Some(Int(7))));
      Keeps(t, Some(where), row) && Plans(t, Some(where), Unsorted, PkGet(Int(7)))
  {
    hide Typed;
    SevenIs7();
  }

  lemma {:induction false} SevenIs7()
    ensures Typed(KInt, [48, 55]) == Some(Int(7)) && CanonicalText(Int(7)) == [55]
  {
    assert Decimal.Value([48, 55]) == 7 by { assert [48, 55][..1] == [48] && [48][..0] == []; }
  }

  /** The row (1, b, c) of `Abc`. */
  function AbcRow(b: RC.Datum, c: RC.Datum): Row {
    [RC.Text([49]), b, c]
  }

  lemma {:induction false} AbcRowInSync(ns: Bytes, name: Bytes, cols: seq<nat>, row: Row)
    requires |cols| <= 2 && forall i :: 0 <= i < |cols| ==> cols[i] < 3
    requires |row| == 3 && row[0] == RC.Text([49]) && RC.Sized(row)
    requires forall i :: 0 <= i < 3 && row[i].Text? ==> Typed(KInt, row[i].text).Some?
    ensures var t := Abc(ns, name, cols); InSync(t, OneRow(t, row)) && LiveRow(t, OneRow(t, row), row)
  {
    hide InSync, LiveRow, OneRow, Typed, TupleOf;
    var t := Abc(ns, name, cols);
    GoodTuple(t, cols, row);
    OneRowInSync(t, row);
  }

  lemma {:induction false} GoodTuple(t: Table, cols: seq<nat>, row: Row)
    requires |row| == |t.kinds| && ColsOk(t, cols)
    requires forall i :: 0 <= i < |row| && row[i].Text? ==> Typed(t.kinds[i], row[i].text).Some?
    ensures !TupleOf(t, cols, row).BadValue?
  {
    hide Typed;
    if cols != [] { GoodTuple(t, cols[1..], row); }
  }

  /** With an index on (b, c), WHERE b = 1 is served by it and does not find the row (1, 1, NULL). */
  lemma {:induction false} LeadingPlanLosesNullRow(ns: Bytes, name: Bytes)
    ensures LeadingPlanLoses(Abc(ns, name, [1, 2]), AbcRow(RC.Text([49]), RC.Null))
  {
    hide RK, RC.EncodeRow, RC.DecodeRow, LiveRow, InSync, OneRow, Typed, Plans;
    var t, row := Abc(ns, name, [1, 2]), AbcRow(RC.Text([49]), RC.Null);
    var where, p := Cmp(Eq, Col(1), Const(Some(Int(1)))), IndexRange(t.defs[0], [Int(1)], [Int(1)], false);
    OneIs1();
    AbcRowInSync(ns, name, [1, 2], row);
    LeadingPlan(t, where, 1);
    assert ColValue(t, row, p.def.cols[1]).None?;
    assert !PlanFinds(t, p, row);
  }

  /** The query `b = 1` keeps the table's only row, and the index plan the planner may choose misses it. */
  ghost predicate LeadingPlanLoses(t: Table, row: Row)
    requires TableOk(t) && t.defs != []
  {
    var where, p := Cmp(Eq, Col(1), Const(Some(Int(1)))), IndexRange(t.defs[0], [Int(1)], [Int(1)], false);
    && InSync(t, OneRow(t, row)) && LiveRow(t, OneRow(t, row), row) && Keeps(t, Some(where), row)
    && Plans(t, Some(where), Unsorted, p) && !FindsAll(t, OneRow(t, row), Some(where), p)
  }

  lemma {:induction false} LeadingPlan(t: Table, where: Expr, col: nat)
    requires where == Cmp(Eq, Col(col), Const(Some(Int(1)))) && col != t.pk
    requires |t.defs| == 1 && |t.defs[0].cols| == 2 && t.defs[0].cols[0] == col
    ensures Plans(t, Some(where), Unsorted, IndexRange(t.defs[0], [Int(1)], [Int(1)], false))
  {
    var eq := CollectEqualities(where);
    assert eq == map[col := Int(1)];
    assert |eq| == 1;
    forall q ensures !EqualityPlan(t, where, q) {
      if q.IndexRange? && |q.def.cols| == 1 {
        assert FindExact(t.defs, q.def.cols[0]) == None by { assert t.defs == [t.defs[0]]; }
      }
    }
    assert t.defs == [t.defs[0]];
  }

  const HIGHEST: int := 0x7FFF_FFFF_FFFF_FFFF

  lemma {:induction false} HighestText()
    ensures |CanonicalText(Int(HIGHEST))| <= 19 && Typed(KInt, CanonicalText(Int(HIGHEST))) == Some(Int(HIGHEST))
  {
    hide Decimal.Format;
    Decimal.FormatRoundTrip(HIGHEST);
    Decimal.TenTo19();
    Decimal.FormatLength(HIGHEST, 19);
  }

  /** (1, 1, 9223372036854775807) */
  function HighRow(): Row {
    AbcRow(RC.Text([49]), RC.Text(CanonicalText(Int(HIGHEST))))
  }

  /** Nor does it find (1, 1, 9223372036854775807): the third column's encoding starts with 0xFF. */
  lemma {:induction false} LeadingPlanLosesHighRow(ns: Bytes, name: Bytes)
    ensures LeadingPlanLoses(Abc(ns, name, [1, 2]), HighRow())
  {
    hide RK, RC.EncodeRow, RC.DecodeRow, LiveRow, InSync, OneRow, Typed, Plans, CanonicalText, PlanFinds;
    var t, row := Abc(ns, name, [1, 2]), HighRow();
    var where, p := Cmp(Eq, Col(1), Const(Some(Int(1)))), IndexRange(t.defs[0], [Int(1)], [Int(1)], false);
    OneIs1();
    HighestText();
    AbcRowInSync(ns, name, [1, 2], row);
    LeadingPlan(t, where, 1);
    HighTuple(t, row);
  }

  lemma {:induction false} HighTuple(t: Table, row: Row)
    requires t == Abc(t.ns, t.name, [1, 2]) && |row| == 3 && row[1].Text? && row[2].Text?
    requires Typed(KInt, row[1].text) == Some(Int(1)) && Typed(KInt, row[2].text) == Some(Int(HIGHEST))
    ensures !PlanFinds(t, IndexRange(t.defs[0], [Int(1)], [Int(1)], false), row)
  {
    hide Typed, NonNull;
    var d := t.defs[0];
    assert d.cols[1..] == [2] && [2][1..] == [];
    assert TupleOf(t, [2], row) == Tuple([Int(HIGHEST)]);
    assert ColsOk(t, d.cols) && TupleOf(t, d.cols, row) == Tuple([Int(1)] + [Int(HIGHEST)]);
    assert [Int(1)] + [Int(HIGHEST)] == [Int(1), Int(HIGHEST)];
    assert TupleAt(t, d, row) == Some([Int(1), Int(HIGHEST)]);
    assert [Int(1), Int(HIGHEST)][..1] == [Int(1)];
    assert CutOff([Int(1), Int(HIGHEST)], [Int(1)]);
  }

  /** ORDER BY b over an index on b does not return the row (1, NULL, NULL). */
  lemma {:induction false} OrderByLosesNullRow(ns: Bytes, name: Bytes)
    ensures
      var t, row := Abc(ns, name, [1]), AbcRow(RC.Null, RC.Null);
      var p := IndexRange(t.defs[0], [], [], true);
      && InSync(t, OneRow(t, row)) && LiveRow(t, OneRow(t, row), row)
      && Plans(t, None, ByColumn(1), p) && !FindsAll(t, OneRow(t, row), None, p)
  {
    hide RK, RC.EncodeRow, RC.DecodeRow, LiveRow, InSync, OneRow, Typed;
    var t, row := Abc(ns, name, [1]), AbcRow(RC.Null, RC.Null);
    var p := IndexRange(t.defs[0], [], [], true);
    OneIs1();
    AbcRowInSync(ns, name, [1], row);
    assert ColValue(t, row, p.def.cols[0]).None?;
    assert !PlanFinds(t, p, row);
  }

  // ---- The hypotheses hold in every run ----

  ghost function TxnView(s: SI.State, x: SI.Tid): KeyView
    requires x in s.txns
  {
    k => SI.Get(s, x, k)
  }

  /** Every transaction of every run sees a synchronised index. */
  lemma {:induction false} TxnViewInSync(det: Detector, t: Table, s: SI.State, x: SI.Tid)
    requires TableOk(t) && IR.IndexInv(det, t, s) && x in s.txns
    ensures InSync(t, TxnView(s, x))
  {
    hide IK, RK, TupleOf, RowOk, SI.Get, SI.Inv, IR.BufferOk, IR.Synced, InSync;
    IR.SnapshotDefined(det, s, x);
    var h, muts := IR.Snapshot(s, x), s.txns[x].muts;
    forall k ensures TxnView(s, x)(k) == IR.View(s.base, h, true, muts, k) {
      IR.GetIsView(det, t, s, x, k);
    }
    BufferInSync(t, s.base, h, muts, TxnView(s, x));
  }

  lemma {:induction false} BufferInSync(t: Table, base: Store, h: seq<SI.Commit>, muts: seq<Mutation>, v: KeyView)
    requires TableOk(t) && IR.BufferOk(t, base, h, muts) && IR.Synced(t, base, h)
    requires forall k :: v(k) == IR.View(base, h, true, muts, k)
    ensures InSync(t, v)
  {
    hide IK, RK, TupleOf, RowOk, IR.View;
    forall k | v(k).Some? ensures OwnForm(t, k) || IR.Foreign(t, k) {
      ViewForms(t, base, h, muts, k);
    }
    forall pk | v(RK(t, pk)).Some? ensures RowAt(t, v, pk).Some? && RowOk(t, RowAt(t, v, pk).value, pk) {
      assert IR.SliceOk(t, base, h, true, muts, pk);
    }
    forall d, tup, pk | d in t.defs && HasShape(t, d, tup)
      ensures v(IK(t, d, tup, pk)) == if TupleIn(t, d, RowAt(t, v, pk)) == Some(tup) then Some(pk) else None
    {
      assert IR.SliceOk(t, base, h, true, muts, pk);
    }
  }

  lemma {:induction false} ViewForms(t: Table, base: Store, h: seq<SI.Commit>, muts: seq<Mutation>, k: Key)
    requires TableOk(t) && IR.BufferOk(t, base, h, muts) && IR.Synced(t, base, h)
    requires IR.View(base, h, true, muts, k).Some?
    ensures OwnForm(t, k) || IR.Foreign(t, k)
  {
    hide OwnForm, IR.Foreign, IR.SliceOk, IK, RK;
  }

  /** The merged iterator of a transaction is a scan of its view, from any bound under the prefix. */
  lemma {:induction false} TxnScan(s: SI.State, x: SI.Tid, es: seq<MI.Entry>, buf: seq<Mutation>, prefix: Bytes,
                                   from: Key)
    requires x in s.txns && HasPrefix(from, prefix)
    requires MI.IsSnapshot(es, s.store.versions, s.txns[x].readTS)
    requires MI.IsBufferedForPrefix(buf, s.txns[x].muts, prefix)
    ensures IsScan(MI.ScanResult(es, prefix, buf, Some(from)), TxnView(s, x), prefix, from)
  {
    MI.SeekUnderPrefixReaches(es, s.txns[x].muts, prefix, from);
    MI.SeekScanIsView(es, s.store.versions, s.txns[x].readTS, s.txns[x].muts, buf, prefix, from);
  }

  /** A state some interleaved run of DML reaches, and a transaction in it. */
  ghost predicate Reaches(det: Detector, t: Table, base: Store, ops: seq<IR.Op>, s: SI.State, x: SI.Tid) {
    && TableOk(t) && WellFormed(base) && IR.Synced(t, base, []) && IR.CleanOps(det, t, SI.Start(base), ops)
    && IR.RunOps(det, t, SI.Start(base), ops) == Some(s) && x in s.txns
  }

  /** The iterators a SELECT of transaction `x` opens: over the table's rows, and over the plan's index. */
  ghost predicate Opens(t: Table, s: SI.State, x: SI.Tid, p: Plan, rowScan: seq<MI.Entry>, indexScan: seq<MI.Entry>)
    requires x in s.txns
  {
    var prefix := RowPrefix(t.ns, MAIN_NAME, t.name);
    && IsOpened(s, x, prefix, prefix, rowScan)
    && (p.IndexRange? ==> IsOpened(s, x, ColPrefix(t, p.def), LoKey(t, p.def, p.lo), indexScan))
  }

  /** What a merged iterator yields for a prefix from a key on. */
  ghost predicate IsOpened(s: SI.State, x: SI.Tid, prefix: Bytes, from: Key, out: seq<MI.Entry>)
    requires x in s.txns
  {
    exists es, buf :: MI.IsSnapshot(es, s.store.versions, s.txns[x].readTS) &&
      MI.IsBufferedForPrefix(buf, s.txns[x].muts, prefix) && out == MI.ScanResult(es, prefix, buf, Some(from))
  }

  lemma {:induction false} OpenedIsScan(s: SI.State, x: SI.Tid, prefix: Bytes, from: Key, out: seq<MI.Entry>)
    requires x in s.txns && HasPrefix(from, prefix) && IsOpened(s, x, prefix, from, out)
    ensures IsScan(out, TxnView(s, x), prefix, from)
  {
    hide MI.ScanResult, MI.IsSnapshot, MI.IsBufferedForPrefix, IsScan, TxnView;
    var es, buf :| MI.IsSnapshot(es, s.store.versions, s.txns[x].readTS) &&
      MI.IsBufferedForPrefix(buf, s.txns[x].muts, prefix) && out == MI.ScanResult(es, prefix, buf, Some(from));
    TxnScan(s, x, es, buf, prefix, from);
  }

  /** In every reachable state the hypotheses of the plan theorems hold of every transaction. */
  lemma {:induction false} SelectInEveryRun(det: Detector, t: Table, base: Store, ops: seq<IR.Op>, s: SI.State,
                                            x: SI.Tid,
                                            p: Plan, rowScan: seq<MI.Entry>, indexScan: seq<MI.Entry>)
    requires Reaches(det, t, base, ops, s, x) && Opens(t, s, x, p, rowScan, indexScan)
    ensures InSync(t, TxnView(s, x)) && ScansOk(t, TxnView(s, x), p, rowScan, indexScan)
  {
    hide InSync, IsScan, IR.IndexInv, TxnView, IR.RunOps, IR.CleanOps, IsOpened, RowPrefix, ColPrefix;
    IR.StartIndexInv(det, t, base);
    IR.RunOpsInv(det, t, SI.Start(base), ops);
    TxnViewInSync(det, t, s, x);
    var prefix := RowPrefix(t.ns, MAIN_NAME, t.name);
    OpenedIsScan(s, x, prefix, prefix, rowScan);
    if p.IndexRange? {
      OpenedIsScan(s, x, ColPrefix(t, p.def), LoKey(t, p.def, p.lo), indexScan);
    }
  }

  /** End to end: in every state of every interleaved run of DML, a SELECT a transaction runs through
      any plan, over its own merged iterators, returns the rows of its full scan if and only if the
      plan finds every row the predicate keeps. */
  lemma {:induction false} IndexedSelectInEveryRun(
      det: Detector, t: Table, base: Store, ops: seq<IR.Op>, s: SI.State, x: SI.Tid,
      where: Option<Expr>, order: Order, p: Plan, rowScan: seq<MI.Entry>, indexScan: seq<MI.Entry>)
    requires Reaches(det, t, base, ops, s, x) && Opens(t, s, x, p, rowScan, indexScan) && Plans(t, where, order, p)
    ensures SameRows(t, TxnView(s, x), where, p, rowScan, indexScan) <==> FindsAll(t, TxnView(s, x), where, p)
  {
    hide InSync, ScansOk, Opens, Plans, FindsAll, TxnView, SameRows;
    SelectInEveryRun(det, t, base, ops, s, x, p, rowScan, indexScan);
    PlanReturnsSameRows(t, TxnView(s, x), where, order, p, rowScan, indexScan);
  }

  /** And the rows of an ordered plan come out as the sort would put them if and only if, besides,
      ties agree. */
  lemma {:induction false} OrderedSelectInEveryRun(
      det: Detector, t: Table, base: Store, ops: seq<IR.Op>, s: SI.State, x: SI.Tid,
      where: Option<Expr>, order: Order, p: Plan, rowScan: seq<MI.Entry>, indexScan: seq<MI.Entry>)
    requires Reaches(det, t, base, ops, s, x) && Opens(t, s, x, p, rowScan, indexScan) && Plans(t, where, order, p)
    requires p.IndexRange? && p.ordered
    ensures order.ByColumn? && p.def.cols != []
    ensures IsTheSort(t, TxnView(s, x), where, order.col, p, rowScan, indexScan) <==>
      FindsAll(t, TxnView(s, x), where, p) && TiesAgree(t, TxnView(s, x), where, p.def)
  {
    hide InSync, ScansOk, Opens, Plans, FindsAll, TiesAgree, TxnView, IsTheSort;
    SelectInEveryRun(det, t, base, ops, s, x, p, rowScan, indexScan);
    OrderedPlanIff(t, TxnView(s, x), where, order, p, rowScan, indexScan);
  }

  // ---- Where keys come from ----

  /** Every row key written lies in `keys`. */
  ghost predicate PutsIn(t: Table, muts: seq<Mutation>, keys: iset<Bytes>) {
    forall m, pk :: m in muts && !m.delete && m.key == RK(t, pk) ==> pk in keys
  }

  ghost predicate KeysInv(t: Table, s: SI.State, keys: iset<Bytes>) {
    && (forall pk :: SI.SerialRead(s.base, [], RK(t, pk)).Some? ==> pk in keys)
    && (forall c :: c in s.history ==> PutsIn(t, c.muts, keys))
    && (forall x :: x in s.txns ==> PutsIn(t, s.txns[x].muts, keys))
  }

  /** The keys the run's INSERTs and upserts name. */
  ghost predicate InsertsIn(t: Table, ops: seq<IR.Op>, keys: iset<Bytes>) {
    forall op :: op in ops && (op.Insert? || op.Upsert?) && IR.TargetKey(t, op).Some? ==>
      IR.TargetKey(t, op).value in keys
  }

  lemma {:induction false} OverlayKeyIn(t: Table, muts: seq<Mutation>, below: Option<Bytes>, pk: Bytes,
                                        keys: iset<Bytes>)
    requires PutsIn(t, muts, keys) && (below.Some? ==> pk in keys) && Overlay(muts, RK(t, pk), below).Some?
    ensures pk in keys
  {
    hide RK;
    if LastWrite(muts, RK(t, pk)).Some? {
      LastWriteIsWrite(muts, RK(t, pk));
    }
  }

  lemma {:induction false} SerialKeyIn(t: Table, base: Store, h: seq<SI.Commit>, pk: Bytes, keys: iset<Bytes>)
    requires SI.SerialRead(base, [], RK(t, pk)).Some? ==> pk in keys
    requires forall c :: c in h ==> PutsIn(t, c.muts, keys)
    requires SI.SerialRead(base, h, RK(t, pk)).Some?
    ensures pk in keys
    decreases |h|
  {
    hide RK, PutsIn;
    if h != [] {
      var n := |h| - 1;
      if SI.SerialRead(base, h[..n], RK(t, pk)).Some? {
        SerialKeyIn(t, base, h[..n], pk, keys);
      }
      OverlayKeyIn(t, h[n].muts, SI.SerialRead(base, h[..n], RK(t, pk)), pk, keys);
    }
  }

  /** A transaction sees rows only under these keys. */
  lemma {:induction false} SeenKeyIn(det: Detector, t: Table, s: SI.State, x: SI.Tid, pk: Bytes, keys: iset<Bytes>)
    requires TableOk(t) && IR.IndexInv(det, t, s) && KeysInv(t, s, keys) && x in s.txns && SI.Get(s, x, RK(t, pk)).Some?
    ensures pk in keys
  {
    hide RK, PutsIn, SI.Inv, IR.BufferOk, IR.Synced, SI.SerialRead;
    IR.SnapshotDefined(det, s, x);
    IR.GetIsView(det, t, s, x, RK(t, pk));
    var h := IR.Snapshot(s, x);
    if SI.SerialRead(s.base, h, RK(t, pk)).Some? {
      SerialKeyIn(t, s.base, h, pk, keys);
    }
    OverlayKeyIn(t, s.txns[x].muts, SI.SerialRead(s.base, h, RK(t, pk)), pk, keys);
  }

  lemma {:induction false} EntryMutsPutNoRow(t: Table, defs: seq<IndexDef>, cells: seq<Datum>, pk: Bytes, add: bool,
                                             m: Mutation)
    requires |cells| == |t.kinds| && (forall d :: d in defs ==> ColsOk(t, d.cols))
    requires m in EntryMuts(t, defs, cells, pk, add)
    ensures forall q :: m.key != RK(t, q)
    decreases |defs|
  {
    hide RK, IK;
    if defs != [] {
      if m in EntryMuts(t, defs[1..], cells, pk, add) {
        EntryMutsPutNoRow(t, defs[1..], cells, pk, add, m);
      } else {
        var tup := TupleOf(t, defs[0].cols, cells).vs;
        forall q ensures m.key != RK(t, q) { RowAndEntryDistinct(t, q, defs[0], tup, pk); }
      }
    }
  }

  lemma {:induction false} PutMutsIn(t: Table, pk: Bytes, prior: Option<seq<Datum>>, cells: seq<Datum>,
                                     keys: iset<Bytes>)
    requires TableOk(t) && |cells| == |t.kinds| && (prior.Some? ==> |prior.value| == |t.kinds|) && pk in keys
    ensures PutsIn(t, PutMuts(t, pk, prior, cells), keys)
  {
    hide RK, IK, EntryMuts;
    forall m, q | m in PutMuts(t, pk, prior, cells) && !m.delete && m.key == RK(t, q) ensures q in keys {
      if prior.Some? && m in EntryMuts(t, t.defs, prior.value, pk, false) {
        EntryMutsPutNoRow(t, t.defs, prior.value, pk, false, m);
      } else if m in EntryMuts(t, t.defs, cells, pk, true) {
        EntryMutsPutNoRow(t, t.defs, cells, pk, true, m);
      } else {
        RowKeysDistinct(t, pk, q);
      }
    }
  }

  lemma {:induction false} DeleteMutsIn(t: Table, pk: Bytes, prior: seq<Datum>, keys: iset<Bytes>)
    requires TableOk(t) && |prior| == |t.kinds|
    ensures PutsIn(t, DeleteMuts(t, pk, prior), keys)
  {
    hide RK, IK, EntryMuts;
    forall m | m in DeleteMuts(t, pk, prior) ensures m.delete || forall q :: m.key != RK(t, q) {
      if m in EntryMuts(t, t.defs, prior, pk, false) { EntryMutsPutNoRow(t, t.defs, prior, pk, false, m); }
    }
  }

  lemma {:induction false} StatementPutsIn(t: Table, op: IR.Op, pk: Bytes, raw: Option<Bytes>, keys: iset<Bytes>)
    requires TableOk(t) && !op.Other? && IR.TargetKey(t, op) == Some(pk) && IR.StatementMuts(t, op, pk, raw).Some?
    requires raw.Some? || op.Insert? || op.Upsert? ==> pk in keys
    ensures PutsIn(t, IR.StatementMuts(t, op, pk, raw).value, keys)
  {
    hide PutMuts, DeleteMuts, RK, RowOk, PutsIn;
    NothingPutsIn(t, keys);
    match op
    case Insert(_, cells) => PutMutsIn(t, pk, None, cells, keys);
    case Upsert(_, cells, upd) =>
      if raw.None? {
        PutMutsIn(t, pk, None, cells, keys);
      } else if upd.Some? {
        PutMutsIn(t, pk, IR.RowIn(t, raw), upd.value, keys);
      }
    case UpdateRow(_, _, cells) => if raw.Some? { PutMutsIn(t, pk, IR.RowIn(t, raw), cells, keys); }
    case DeleteRow(_, _) => if raw.Some? { DeleteMutsIn(t, pk, IR.RowIn(t, raw).value, keys); }
  }

  lemma {:induction false} NothingPutsIn(t: Table, keys: iset<Bytes>)
    ensures PutsIn(t, [], keys)
  {
  }

  lemma {:induction false} ForeignPutsIn(t: Table, muts: seq<Mutation>, keys: iset<Bytes>)
    requires TableOk(t) && forall m :: m in muts ==> IR.Foreign(t, m.key)
    ensures PutsIn(t, muts, keys)
  {
    hide IR.Foreign, RK;
    forall pk ensures !IR.Foreign(t, RK(t, pk)) {
      assert OwnForm(t, RK(t, pk));
      IR.OwnIsNotForeign(t, RK(t, pk));
    }
  }

  lemma {:induction false} AppendPutsIn(t: Table, a: seq<Mutation>, b: seq<Mutation>, keys: iset<Bytes>)
    requires PutsIn(t, a, keys) && PutsIn(t, b, keys)
    ensures PutsIn(t, a + b, keys)
  {
  }

  lemma {:induction false} StepKeysInv(det: Detector, t: Table, s: SI.State, e: SI.Event, keys: iset<Bytes>)
    requires SI.Step(det, s, e).Some? && KeysInv(t, s, keys) && (e.Buffer? ==> PutsIn(t, e.muts, keys))
    ensures KeysInv(t, SI.Step(det, s, e).value, keys)
  {
    hide PutsIn, RK, SI.SerialRead, Conflicts;
    NothingPutsIn(t, keys);
    if e.Buffer? { AppendPutsIn(t, s.txns[e.tid].muts, e.muts, keys); }
  }

  lemma {:induction false} OpKeysInv(det: Detector, t: Table, s: SI.State, op: IR.Op, keys: iset<Bytes>)
    requires TableOk(t) && IR.IndexInv(det, t, s) && KeysInv(t, s, keys) && InsertsIn(t, [op], keys)
    requires IR.StepOp(det, t, s, op).Some?
    ensures KeysInv(t, IR.StepOp(det, t, s, op).value, keys)
  {
    hide PutsIn, RK, IR.IndexInv, KeysInv, IR.StatementMuts, SI.Step, SI.Get;
    if op.Other? {
      IR.OtherStep(det, t, s, op.event);
      if op.event.Buffer? { ForeignPutsIn(t, op.event.muts, keys); }
      StepKeysInv(det, t, s, op.event, keys);
    } else {
      var pk := IR.TargetKey(t, op).value;
      var raw := SI.Get(s, IR.Tid(op), RK(t, pk));
      if raw.Some? { SeenKeyIn(det, t, s, IR.Tid(op), pk, keys); }
      assert op in [op];
      StatementPutsIn(t, op, pk, raw, keys);
      StepKeysInv(det, t, s, SI.Buffer(IR.Tid(op), IR.StatementMuts(t, op, pk, raw).value), keys);
    }
  }

  lemma {:induction false} RunKeysInv(det: Detector, t: Table, s: SI.State, ops: seq<IR.Op>, keys: iset<Bytes>)
    requires TableOk(t) && IR.IndexInv(det, t, s) && KeysInv(t, s, keys) && InsertsIn(t, ops, keys)
    requires IR.CleanOps(det, t, s, ops) && IR.RunOps(det, t, s, ops).Some?
    ensures KeysInv(t, IR.RunOps(det, t, s, ops).value, keys)
    decreases |ops|
  {
    hide KeysInv, IR.IndexInv, IR.StepOp;
    if ops != [] {
      assert InsertsIn(t, [ops[0]], keys) && InsertsIn(t, ops[1..], keys);
      OpKeysInv(det, t, s, ops[0], keys);
      OneStepInv(det, t, s, ops);
      RunKeysInv(det, t, IR.StepOp(det, t, s, ops[0]).value, ops[1..], keys);
    }
  }

  lemma {:induction false} OneStepInv(det: Detector, t: Table, s: SI.State, ops: seq<IR.Op>)
    requires TableOk(t) && IR.IndexInv(det, t, s) && ops != [] && IR.CleanOps(det, t, s, ops)
    requires IR.StepOp(det, t, s, ops[0]).Some?
    ensures IR.IndexInv(det, t, IR.StepOp(det, t, s, ops[0]).value)
  {
    hide IR.IndexInv, IR.StepOp;
    if ops[0].Other? {
      IR.OtherInv(det, t, s, ops[0].event);
    } else {
      IR.StatementInv(det, t, s, ops[0]);
    }
  }

  /** Rows are found only under keys that were there at the start or that an INSERT or upsert of the
      run named: no UPDATE, DELETE or commit makes a key. */
  lemma {:induction false} KeysComeFromInserts(det: Detector, t: Table, base: Store, ops: seq<IR.Op>, s: SI.State,
                                               x: SI.Tid, pk: Bytes, keys: iset<Bytes>)
    requires Reaches(det, t, base, ops, s, x) && InsertsIn(t, ops, keys)
    requires forall q :: SI.SerialRead(base, [], RK(t, q)).Some? ==> q in keys
    ensures TxnView(s, x)(RK(t, pk)).Some? ==> pk in keys
  {
    hide IR.IndexInv, IR.RunOps, IR.CleanOps, RK, SI.SerialRead, SI.Get;
    IR.StartIndexInv(det, t, base);
    IR.RunOpsInv(det, t, SI.Start(base), ops);
    RunKeysInv(det, t, SI.Start(base), ops, keys);
    if TxnView(s, x)(RK(t, pk)).Some? {
      SeenKeyIn(det, t, s, x, pk, keys);
    }
  }

  ghost function CanonicalPks(t: Table): iset<Bytes> {
    iset pk | CanonicalPk(t, pk)
  }

  /** In a run whose INSERTs write keys in canonical spelling, from a table that had no others, every
      point get of every transaction finds its rows. */
  lemma {:induction false} PointGetsFindInEveryRun(det: Detector, t: Table, base: Store, ops: seq<IR.Op>, s: SI.State,
                                                   x: SI.Tid)
    requires Reaches(det, t, base, ops, s, x) && InsertsIn(t, ops, CanonicalPks(t))
    requires forall pk :: SI.SerialRead(base, [], RK(t, pk)).Some? ==> CanonicalPk(t, pk)
    ensures PointGetsFind(t, TxnView(s, x))
  {
    hide InSync, TxnView, RK, IR.RunOps, IR.CleanOps, IR.IndexInv, SI.SerialRead, PointGetsFind, CanonicalPk, InsertsIn;
    IR.StartIndexInv(det, t, base);
    IR.RunOpsInv(det, t, SI.Start(base), ops);
    TxnViewInSync(det, t, s, x);
    forall pk | TxnView(s, x)(RK(t, pk)).Some? ensures CanonicalPk(t, pk) {
      KeysComeFromInserts(det, t, base, ops, s, x, pk, CanonicalPks(t));
    }
    PointGetsFindIff(t, TxnView(s, x));
  }

  /** What every run of such statements gives: whatever WHERE is, through a full scan, a point get, a
      single-column index or an equality on every column of an index, a SELECT returns the rows of the
      full scan. */
  lemma {:induction false} SelectExactInEveryRun(
      det: Detector, t: Table, base: Store, ops: seq<IR.Op>, s: SI.State, x: SI.Tid,
      where: Expr, order: Order, p: Plan, rowScan: seq<MI.Entry>, indexScan: seq<MI.Entry>)
    requires Reaches(det, t, base, ops, s, x) && InsertsIn(t, ops, CanonicalPks(t))
    requires forall pk :: SI.SerialRead(base, [], RK(t, pk)).Some? ==> CanonicalPk(t, pk)
    requires Opens(t, s, x, p, rowScan, indexScan) && Plans(t, Some(where), order, p)
    requires p.IndexRange? ==> WhereDriven(t, Some(where), p) && (|p.def.cols| == 1 || |p.hi| == |p.def.cols|)
    ensures SameRows(t, TxnView(s, x), Some(where), p, rowScan, indexScan)
  {
    hide InSync, ScansOk, Opens, Plans, TxnView, SameRows, Reaches, RK, SI.SerialRead, CanonicalPk, InsertsIn, Keeps,
      LiveRow, WhereDriven, IR.Synced;
    ReachesOk(det, t, base, ops, s, x);
    SelectInEveryRun(det, t, base, ops, s, x, p, rowScan, indexScan);
    PointGetsFindInEveryRun(det, t, base, ops, s, x);
    if p.IndexRange? { WholeTuplePlanFindsAll(t, TxnView(s, x), where, order, p); }
    PlanReturnsSameRows(t, TxnView(s, x), Some(where), order, p, rowScan, indexScan);
  }

  lemma {:induction false} ReachesOk(det: Detector, t: Table, base: Store, ops: seq<IR.Op>, s: SI.State, x: SI.Tid)
    requires Reaches(det, t, base, ops, s, x)
    ensures TableOk(t) && x in s.txns
  {
  }
}
