/** MERGE and main's secondary indexes (engine/internal/branch/merge.go over engine/internal/executor/index.go): a
    merge copies data keys only, and index keys carry the branch, so main's indexes keep the entries they had. */
module MergeIndex {
  import opened Bytes
  import opened OrderEncoding
  import opened Keys
  import opened IndexMaintenance
  import opened QueryPlan
  import opened IndexScan
  import B = Branches
  import IR = IndexRuns
  import K = Rekey
  import RC = RowCodec

  /** The branch's own entry for a primary key. */
  function BranchEntry(t: Table, v: KeyView, src: Bytes, pk: Bytes): Option<Bytes> {
    v(RowKey(t.ns, src, t.name, pk))
  }

  /** The row the merge gives main there; None for a tombstone. */
  function PushedRow(t: Table, v: KeyView, src: Bytes, pk: Bytes): Option<Row> {
    IR.RowIn(t, B.Live(BranchEntry(t, v, src, pk)))
  }

  /** What the branch holds of the table are tombstones and proper rows under their keys. */
  ghost predicate BranchOk(t: Table, v: KeyView, src: Bytes)
    requires TableOk(t)
  {
    && (forall tail :: v(RowPrefix(t.ns, src, t.name) + tail).Some? ==> exists pk :: tail == PkTail(pk))
    && (forall pk :: B.Live(BranchEntry(t, v, src, pk)).Some? ==>
          PushedRow(t, v, src, pk).Some? && RowOk(t, PushedRow(t, v, src, pk).value, pk))
  }

  ghost predicate Merges(t: Table, v: KeyView, src: Bytes) {
    TableOk(t) && InSync(t, v) && src != MAIN_NAME && src != [] && BranchOk(t, v, src)
  }

  lemma {:induction false} MergedAt(t: Table, v: KeyView, src: Bytes, pk: Bytes)
    requires Merges(t, v, src)
    ensures B.AfterMerge(v, t.ns, src)(RK(t, pk)) ==
      if BranchEntry(t, v, src, pk).Some? then B.Live(BranchEntry(t, v, src, pk)) else v(RK(t, pk))
  {
    hide RowPrefix, RowKey, PkTail, InSync, BranchOk, B.Merged, B.Live;
    RowKeyShape(t.ns, MAIN_NAME, t.name, pk);
    RowKeyShape(t.ns, src, t.name, pk);
    B.MergedRow(v, t.ns, src, t.name, PkTail(pk));
  }

  /** No index key of main lies among its data. */
  lemma {:induction false} IndexOutsideData(ns: Bytes, u: Bytes, name: Bytes, k: Bytes)
    ensures !(HasPrefix(k, DataRoot(ns, MAIN_NAME)) && HasPrefix(k, IndexColumnPrefix(ns, MAIN_NAME, u, name)))
  {
    var n := |NsRoot(ns) + BranchSegment(MAIN_NAME)|;
    assert DataRoot(ns, MAIN_NAME)[n + 1] == 100;
    assert IndexColumnPrefix(ns, MAIN_NAME, u, name)[n + 1] == 105;
  }

  lemma {:induction false} EntriesUntouched(t: Table, v: KeyView, src: Bytes, d: IndexDef, tup: seq<Value>, pk: Bytes)
    ensures B.AfterMerge(v, t.ns, src)(IK(t, d, tup, pk)) == v(IK(t, d, tup, pk))
  {
    hide DataRoot, IndexColumnPrefix, IndexKey;
    IndexKeyShape(t.ns, MAIN_NAME, t.name, d.name, EncodeTuple(tup), pk);
    IndexOutsideData(t.ns, t.name, d.name, IK(t, d, tup, pk));
  }

  lemma {:induction false} FormsAfter(t: Table, v: KeyView, src: Bytes, k: Bytes)
    requires Merges(t, v, src) && B.AfterMerge(v, t.ns, src)(k).Some?
    ensures OwnForm(t, k) || IR.Foreign(t, k)
  {
    hide DataRoot, RowPrefix, PkTail, RowKey, IndexColumnPrefix, OwnForm, B.Live, RowOk;
    if v(k).None? && HasPrefix(k, RowPrefix(t.ns, MAIN_NAME, t.name)) {
      var tail := k[|RowPrefix(t.ns, MAIN_NAME, t.name)|..];
      assert k == RowPrefix(t.ns, MAIN_NAME, t.name) + tail;
      B.MergedRow(v, t.ns, src, t.name, tail);
      var pk :| tail == PkTail(pk);
      RowKeyShape(t.ns, MAIN_NAME, t.name, pk);
      OwnRow(t, pk);
    } else if v(k).None? {
      forall d | d in t.defs ensures !HasPrefix(k, IndexColumnPrefix(t.ns, MAIN_NAME, t.name, d.name)) {
        IndexOutsideData(t.ns, t.name, d.name, k);
      }
    }
  }

  lemma {:induction false} OwnRow(t: Table, pk: Bytes)
    requires TableOk(t)
    ensures OwnForm(t, RowKey(t.ns, MAIN_NAME, t.name, pk))
  {
    hide RowKey, EntryForm;
    assert RowKey(t.ns, MAIN_NAME, t.name, pk) == RK(t, pk);
  }

  lemma {:induction false} RowsInOrder(t: Table, v: KeyView, src: Bytes)
    requires Merges(t, v, src)
    ensures K.RowsOk(t, B.AfterMerge(v, t.ns, src))
  {
    hide RK, RowKey, OwnForm, IR.Foreign, RowOk, B.AfterMerge, B.Live, TupleOf;
    var w := B.AfterMerge(v, t.ns, src);
    forall pk | w(RK(t, pk)).Some? ensures RowAt(t, w, pk).Some? && RowOk(t, RowAt(t, w, pk).value, pk) {
      MergedAt(t, v, src, pk);
    }
    forall k | w(k).Some? ensures OwnForm(t, k) || IR.Foreign(t, k) {
      FormsAfter(t, v, src, k);
    }
  }

  /** The row gives the index the same tuple after the merge as before. */
  ghost predicate TupleKept(t: Table, v: KeyView, src: Bytes, d: IndexDef, pk: Bytes)
    requires ColsOk(t, d.cols)
  {
    BranchEntry(t, v, src, pk).Some? ==> TupleIn(t, d, RowAt(t, v, pk)) == TupleIn(t, d, PushedRow(t, v, src, pk))
  }

  lemma {:induction false} SlotAfter(t: Table, v: KeyView, src: Bytes, d: IndexDef, tup: seq<Value>, pk: Bytes)
    requires Merges(t, v, src) && d in t.defs && HasShape(t, d, tup)
    ensures var w := B.AfterMerge(v, t.ns, src);
      K.SlotOk(t, w, d, tup, pk) <==>
      (TupleIn(t, d, RowAt(t, w, pk)) == Some(tup) <==> TupleIn(t, d, RowAt(t, v, pk)) == Some(tup))
  {
    hide RK, IK, TupleOf, RowOk, B.AfterMerge, BranchOk, OwnForm, IR.Foreign;
    EntriesUntouched(t, v, src, d, tup, pk);
  }

  lemma {:induction false} SlotsAfter(t: Table, v: KeyView, src: Bytes, d: IndexDef)
    requires Merges(t, v, src) && d in t.defs
    ensures K.SlotsOk(t, B.AfterMerge(v, t.ns, src), d) <==> forall pk :: TupleKept(t, v, src, d, pk)
  {
    hide TupleOf, RK, RowKey, InSync, BranchOk, B.AfterMerge, B.Live, K.SlotOk;
    var w := B.AfterMerge(v, t.ns, src);
    forall pk
      ensures TupleKept(t, v, src, d, pk) <==> TupleIn(t, d, RowAt(t, w, pk)) == TupleIn(t, d, RowAt(t, v, pk))
    {
      MergedAt(t, v, src, pk);
    }
    if K.SlotsOk(t, w, d) {
      forall pk ensures TupleIn(t, d, RowAt(t, w, pk)) == TupleIn(t, d, RowAt(t, v, pk)) {
        SameTuple(t, v, src, d, pk);
      }
    }
    if forall pk :: TupleKept(t, v, src, d, pk) {
      forall tup, pk | HasShape(t, d, tup) ensures K.SlotOk(t, w, d, tup, pk) {
        assert TupleKept(t, v, src, d, pk);
        SlotAfter(t, v, src, d, tup, pk);
      }
    }
  }

  lemma {:induction false} SameTuple(t: Table, v: KeyView, src: Bytes, d: IndexDef, pk: Bytes)
    requires Merges(t, v, src) && d in t.defs && K.SlotsOk(t, B.AfterMerge(v, t.ns, src), d)
    ensures TupleIn(t, d, RowAt(t, B.AfterMerge(v, t.ns, src), pk)) == TupleIn(t, d, RowAt(t, v, pk))
  {
    hide TupleOf, RK, RowKey, InSync, BranchOk, B.AfterMerge, K.SlotOk, K.SlotsOk;
    var w := B.AfterMerge(v, t.ns, src);
    var a, b := TupleIn(t, d, RowAt(t, w, pk)), TupleIn(t, d, RowAt(t, v, pk));
    if a.Some? {
      TupleHasShape(t, d.cols, RowAt(t, w, pk).value);
      K.SlotIn(t, w, d, a.value, pk);
      SlotAfter(t, v, src, d, a.value, pk);
    } else if b.Some? {
      TupleHasShape(t, d.cols, RowAt(t, v, pk).value);
      K.SlotIn(t, w, d, b.value, pk);
      SlotAfter(t, v, src, d, b.value, pk);
    }
  }

  /** Main's indexes are exact after a merge if and only if no row the branch wrote or deleted changes what an
      index holds of it. */
  lemma {:induction false} MergeSyncedIff(t: Table, v: KeyView, src: Bytes)
    requires Merges(t, v, src)
    ensures InSync(t, B.AfterMerge(v, t.ns, src)) <==>
      forall d, pk :: d in t.defs ==> TupleKept(t, v, src, d, pk)
  {
    hide InSync, BranchOk, B.AfterMerge, K.SlotsOk, K.RowsOk, TupleKept;
    RowsInOrder(t, v, src);
    K.SyncedBySlots(t, B.AfterMerge(v, t.ns, src));
    forall d | d in t.defs
      ensures K.SlotsOk(t, B.AfterMerge(v, t.ns, src), d) <==> forall pk :: TupleKept(t, v, src, d, pk)
    {
      SlotsAfter(t, v, src, d);
    }
  }

  /** In particular a row inserted on the branch with a value in every indexed column is a row of main after the
      merge, and the index has no entry for it. */
  lemma {:induction false} MergedRowNotIndexed(t: Table, v: KeyView, src: Bytes, d: IndexDef, pk: Bytes)
    requires Merges(t, v, src) && d in t.defs && v(RK(t, pk)).None?
    requires TupleIn(t, d, PushedRow(t, v, src, pk)).Some?
    ensures var row, w := PushedRow(t, v, src, pk).value, B.AfterMerge(v, t.ns, src);
      LiveRow(t, w, row) && w(EntryKey(t, d, row)) == None && !InSync(t, w)
  {
    hide TupleOf, RK, IK, RowKey, B.AfterMerge, RC.IsTombstone, OwnForm, IR.Foreign, HasShape;
    var row, w := PushedRow(t, v, src, pk).value, B.AfterMerge(v, t.ns, src);
    var tup := TupleIn(t, d, Some(row)).value;
    MergedAt(t, v, src, pk);
    assert PkOf(t, row) == pk;
    ShapeOf(t, d, row);
    EntriesUntouched(t, v, src, d, tup, pk);
    assert v(IK(t, d, tup, pk)) == None;
    MergeSyncedIff(t, v, src);
    assert !TupleKept(t, v, src, d, pk);
  }

  lemma {:induction false} ShapeOf(t: Table, d: IndexDef, row: Row)
    requires TableOk(t) && d in t.defs && |row| == |t.kinds| && TupleIn(t, d, Some(row)).Some?
    ensures HasShape(t, d, TupleIn(t, d, Some(row)).value)
  {
    hide TupleOf;
    TupleHasShape(t, d.cols, row);
  }
}
