/** UPDATE of a primary key (engine/internal/executor/dml.go). The entries of the old version are removed, the new
    version and its entries are written under the new key, and the old row is left where it was. */
module Rekey {
  import opened Bytes
  import opened Versions
  import opened OrderEncoding
  import opened Keys
  import opened IndexMaintenance
  import opened QueryPlan
  import opened IndexScan
  import IR = IndexRuns
  import IS = IndexSelect
  import RC = RowCodec

  /** What the statement buffers for row `p`, which was `prior` and becomes `next` under key `q`. */
  function RekeyMuts(t: Table, p: Bytes, prior: Row, q: Bytes, next: Row): seq<Mutation>
    requires |prior| == |t.kinds| && |next| == |t.kinds| && forall d :: d in t.defs ==> ColsOk(t, d.cols)
  {
    EntryMuts(t, t.defs, prior, p, false)
    + ([Mutation(RK(t, q), RC.EncodeRow(next), false)] + EntryMuts(t, t.defs, next, q, true))
  }

  /** With the same key this is the ordinary UPDATE. */
  lemma {:induction false} SameKeyIsPut(t: Table, p: Bytes, prior: Row, next: Row)
    requires TableOk(t) && |prior| == |t.kinds| && |next| == |t.kinds|
    ensures RekeyMuts(t, p, prior, p, next) == PutMuts(t, p, Some(prior), next)
  {
  }

  /** The view once the transaction has buffered the mutations. */
  function After(v: KeyView, ms: seq<Mutation>): KeyView {
    k => Overlay(ms, k, v(k))
  }

  lemma {:induction false} RowKeysWritten(t: Table, p: Bytes, prior: Row, q: Bytes, next: Row, x: Bytes)
    requires TableOk(t) && |prior| == |t.kinds| && |next| == |t.kinds|
    ensures LastWrite(RekeyMuts(t, p, prior, q, next), RK(t, x)) ==
      if x == q then Some(Mutation(RK(t, x), RC.EncodeRow(next), false)) else None
  {
    hide LastWrite, RK, EntryMuts;
    var k := RK(t, x);
    var drop, add := EntryMuts(t, t.defs, prior, p, false), EntryMuts(t, t.defs, next, q, true);
    var row := Mutation(RK(t, q), RC.EncodeRow(next), false);
    LastWriteAppend(drop, [row] + add, k);
    LastWriteAppend([row], add, k);
    LastWriteSingle(row, k);
    EntryMutsMissRows(t, next, q, true, x);
    EntryMutsMissRows(t, prior, p, false, x);
    RowKeysDistinct(t, q, x);
  }

  lemma {:induction false} EntryKeysWritten(t: Table, p: Bytes, prior: Row, q: Bytes, next: Row,
                                            d: IndexDef, tup: seq<Value>, x: Bytes)
    requires TableOk(t) && |prior| == |t.kinds| && |next| == |t.kinds| && d in t.defs && HasShape(t, d, tup)
    ensures LastWrite(RekeyMuts(t, p, prior, q, next), IK(t, d, tup, x)) ==
      if x == q && TupleIn(t, d, Some(next)) == Some(tup) then Some(Mutation(IK(t, d, tup, x), q, false))
      else if x == p && TupleIn(t, d, Some(prior)) == Some(tup) then Some(Mutation(IK(t, d, tup, x), [], true))
      else None
  {
    hide LastWrite, IK, RK, EntryMuts, TupleOf;
    var k := IK(t, d, tup, x);
    var drop, add := EntryMuts(t, t.defs, prior, p, false), EntryMuts(t, t.defs, next, q, true);
    var row := Mutation(RK(t, q), RC.EncodeRow(next), false);
    LastWriteAppend(drop, [row] + add, k);
    LastWriteAppend([row], add, k);
    LastWriteSingle(row, k);
    RowAndEntryDistinct(t, q, d, tup, x);
    EntryMutsLast(t, t.defs, next, q, true, d, tup, x);
    EntryMutsLast(t, t.defs, prior, p, false, d, tup, x);
  }

  /** A statement that gives the row `p` of the view the key `q`. */
  ghost predicate Rekeys(t: Table, v: KeyView, p: Bytes, prior: Row, q: Bytes, next: Row) {
    && TableOk(t) && InSync(t, v) && p != q && RowAt(t, v, p) == Some(prior) && |prior| == |t.kinds|
    && |next| == |t.kinds| && RowOk(t, next, q)
  }

  /** The rows afterwards: the new one under its key, every other row as it was, the old one included. */
  lemma {:induction false} RowsAfter(t: Table, v: KeyView, p: Bytes, prior: Row, q: Bytes, next: Row, x: Bytes)
    requires Rekeys(t, v, p, prior, q, next)
    ensures var w := After(v, RekeyMuts(t, p, prior, q, next));
      RowAt(t, w, x) == if x == q then Some(next) else RowAt(t, v, x)
  {
    hide RK, RC.EncodeRow, RC.DecodeRow, LastWrite, TupleOf, InSync;
    RowKeysWritten(t, p, prior, q, next, x);
    RC.RowRoundTrip(next);
  }

  /** UPDATE t SET pk = q WHERE pk = p leaves both rows. */
  lemma {:induction false} OldRowStays(t: Table, v: KeyView, p: Bytes, prior: Row, q: Bytes, next: Row)
    requires Rekeys(t, v, p, prior, q, next)
    ensures var w := After(v, RekeyMuts(t, p, prior, q, next)); LiveRow(t, w, prior) && LiveRow(t, w, next)
  {
    hide RK, TupleOf, RekeyMuts, After;
    RowsAfter(t, v, p, prior, q, next, p);
    RowsAfter(t, v, p, prior, q, next, q);
    assert PkOf(t, next) == q;
    assert v(RK(t, p)).Some?;
    assert PkOf(t, prior) == p;
  }

  /** The entry slot of a tuple and a key says what the row there says. */
  ghost predicate SlotOk(t: Table, v: KeyView, d: IndexDef, tup: seq<Value>, x: Bytes)
    requires TableOk(t) && d in t.defs
  {
    v(IK(t, d, tup, x)) == if TupleIn(t, d, RowAt(t, v, x)) == Some(tup) then Some(x) else None
  }

  ghost predicate SlotsOk(t: Table, v: KeyView, d: IndexDef)
    requires TableOk(t) && d in t.defs
  {
    forall tup, x :: HasShape(t, d, tup) ==> SlotOk(t, v, d, tup, x)
  }

  ghost predicate RowsOk(t: Table, v: KeyView)
    requires TableOk(t)
  {
    && (forall pk :: v(RK(t, pk)).Some? ==> RowAt(t, v, pk).Some? && RowOk(t, RowAt(t, v, pk).value, pk))
    && (forall k :: v(k).Some? ==> OwnForm(t, k) || IR.Foreign(t, k))
  }

  /** A view is synchronised when its rows are in order and so is every slot of every index. */
  lemma {:induction false} SyncedBySlots(t: Table, v: KeyView)
    requires TableOk(t) && RowsOk(t, v)
    ensures InSync(t, v) <==> forall d :: d in t.defs ==> SlotsOk(t, v, d)
  {
    hide RK, IK, TupleOf, RowOk, OwnForm, IR.Foreign, HasShape;
    if InSync(t, v) {
      forall d | d in t.defs ensures SlotsOk(t, v, d) {}
    }
    if forall d :: d in t.defs ==> SlotsOk(t, v, d) {
      forall d, tup, pk | d in t.defs && HasShape(t, d, tup)
        ensures v(IK(t, d, tup, pk)) == if TupleIn(t, d, RowAt(t, v, pk)) == Some(tup) then Some(pk) else None
      {
        assert SlotsOk(t, v, d);
        assert SlotOk(t, v, d, tup, pk);
      }
    }
  }

  lemma {:induction false} SlotAfter(t: Table, v: KeyView, p: Bytes, prior: Row, q: Bytes, next: Row,
                                     d: IndexDef, tup: seq<Value>, x: Bytes)
    requires Rekeys(t, v, p, prior, q, next) && d in t.defs && HasShape(t, d, tup)
    ensures SlotOk(t, After(v, RekeyMuts(t, p, prior, q, next)), d, tup, x) <==>
      && (x == p ==> TupleIn(t, d, Some(prior)) != Some(tup))
      && (x == q && TupleIn(t, d, RowAt(t, v, q)) == Some(tup) ==> TupleIn(t, d, Some(next)) == Some(tup))
  {
    hide RK, IK, LastWrite, TupleOf, RekeyMuts, RowOk;
    EntryKeysWritten(t, p, prior, q, next, d, tup, x);
    RowsAfter(t, v, p, prior, q, next, x);
    assert SlotOk(t, v, d, tup, x);
  }

  /** No index holds an entry of the old version, and every entry of a row that had the new key is one of the new
      version's. */
  ghost predicate Undisturbed(t: Table, prior: Row, other: Option<Row>, next: Row, d: IndexDef)
    requires ColsOk(t, d.cols) && |prior| == |t.kinds| && |next| == |t.kinds|
    requires other.Some? ==> |other.value| == |t.kinds|
  {
    && TupleIn(t, d, Some(prior)).None?
    && (TupleIn(t, d, other).Some? ==> TupleIn(t, d, Some(next)) == TupleIn(t, d, other))
  }

  lemma {:induction false} SlotsOfIndex(t: Table, v: KeyView, p: Bytes, prior: Row, q: Bytes, next: Row, d: IndexDef)
    requires Rekeys(t, v, p, prior, q, next) && d in t.defs
    ensures Undisturbed(t, prior, RowAt(t, v, q), next, d) <==>
      SlotsOk(t, After(v, RekeyMuts(t, p, prior, q, next)), d)
  {
    hide InSync, RowOk, RekeyMuts, After, SlotOk, TupleOf;
    var w := After(v, RekeyMuts(t, p, prior, q, next));
    forall tup, x | HasShape(t, d, tup)
      ensures SlotOk(t, w, d, tup, x) <==>
        && (x == p ==> TupleIn(t, d, Some(prior)) != Some(tup))
        && (x == q && TupleIn(t, d, RowAt(t, v, q)) == Some(tup) ==> TupleIn(t, d, Some(next)) == Some(tup))
    {
      SlotAfter(t, v, p, prior, q, next, d, tup, x);
    }
    var a, b := TupleIn(t, d, Some(prior)), TupleIn(t, d, RowAt(t, v, q));
    if a.Some? { TupleHasShape(t, d.cols, prior); }
    if b.Some? { TupleHasShape(t, d.cols, RowAt(t, v, q).value); }
    assert a.Some? ==> HasShape(t, d, a.value);
    assert b.Some? ==> HasShape(t, d, b.value);
    if SlotsOk(t, w, d) {
      forall tup | HasShape(t, d, tup) ensures a != Some(tup) && (b == Some(tup) ==> TupleIn(t, d, Some(next)) == b) {
        SlotIn(t, w, d, tup, p);
        SlotIn(t, w, d, tup, q);
      }
    }
  }

  lemma {:induction false} SlotIn(t: Table, v: KeyView, d: IndexDef, tup: seq<Value>, x: Bytes)
    requires TableOk(t) && d in t.defs && HasShape(t, d, tup) && SlotsOk(t, v, d)
    ensures SlotOk(t, v, d, tup, x)
  {
    hide SlotOk, HasShape;
  }

  /** What the statement leaves is a row store like any other. */
  lemma {:induction false} RowsInOrder(t: Table, v: KeyView, p: Bytes, prior: Row, q: Bytes, next: Row)
    requires Rekeys(t, v, p, prior, q, next)
    ensures RowsOk(t, After(v, RekeyMuts(t, p, prior, q, next)))
  {
    hide RK, IK, TupleOf, RekeyMuts, EntryMuts, OwnForm, IR.Foreign, LastWrite;
    var ms := RekeyMuts(t, p, prior, q, next);
    var w := After(v, ms);
    forall pk | w(RK(t, pk)).Some? ensures RowAt(t, w, pk).Some? && RowOk(t, RowAt(t, w, pk).value, pk) {
      RowKeysWritten(t, p, prior, q, next, pk);
      RowsAfter(t, v, p, prior, q, next, pk);
    }
    forall k | w(k).Some? ensures OwnForm(t, k) || IR.Foreign(t, k) {
      if LastWrite(ms, k).Some? { WrittenIsOwn(t, p, prior, q, next, k); }
    }
  }

  lemma {:induction false} WrittenIsOwn(t: Table, p: Bytes, prior: Row, q: Bytes, next: Row, k: Key)
    requires TableOk(t) && |prior| == |t.kinds| && |next| == |t.kinds|
    requires LastWrite(RekeyMuts(t, p, prior, q, next), k).Some?
    ensures OwnForm(t, k)
  {
    hide RK, EntryMuts, LastWrite;
    var drop, add := EntryMuts(t, t.defs, prior, p, false), EntryMuts(t, t.defs, next, q, true);
    var row := Mutation(RK(t, q), RC.EncodeRow(next), false);
    LastWriteAppend(drop, [row] + add, k);
    LastWriteAppend([row], add, k);
    LastWriteSingle(row, k);
    IR.EntryMutsOwn(t, prior, p, false);
    IR.EntryMutsOwn(t, next, q, true);
    if LastWrite(drop, k).Some? { LastWriteIsWrite(drop, k); }
    if LastWrite(add, k).Some? { LastWriteIsWrite(add, k); }
  }

  /** An UPDATE that changes a row's primary key keeps the indexes exact if and only if the old version had no entry
      in any of them, and a row that had the new key had none but what the new version has. */
  lemma {:induction false} RekeySyncedIff(t: Table, v: KeyView, p: Bytes, prior: Row, q: Bytes, next: Row)
    requires Rekeys(t, v, p, prior, q, next)
    ensures InSync(t, After(v, RekeyMuts(t, p, prior, q, next))) <==>
      forall d :: d in t.defs ==> Undisturbed(t, prior, RowAt(t, v, q), next, d)
  {
    hide RK, TupleOf, RekeyMuts, After, RowOk, RowsOk, SlotsOk, InSync, Undisturbed;
    RowsInOrder(t, v, p, prior, q, next);
    SyncedBySlots(t, After(v, RekeyMuts(t, p, prior, q, next)));
    forall d | d in t.defs
      ensures Undisturbed(t, prior, RowAt(t, v, q), next, d) <==>
        SlotsOk(t, After(v, RekeyMuts(t, p, prior, q, next)), d)
    {
      SlotsOfIndex(t, v, p, prior, q, next, d);
    }
  }

  /** In particular never when a column the old version is indexed by is not NULL: the row is still there, and the
      index does not find it. */
  lemma {:induction false} IndexedRekeyLosesRow(t: Table, v: KeyView, p: Bytes, prior: Row, q: Bytes, next: Row,
                                                d: IndexDef)
    requires Rekeys(t, v, p, prior, q, next) && d in t.defs && TupleAt(t, d, prior).Some?
    ensures var w := After(v, RekeyMuts(t, p, prior, q, next));
      LiveRow(t, w, prior) && w(EntryKey(t, d, prior)) == None && !InSync(t, w)
  {
    hide RK, IK, TupleOf, RekeyMuts, RowOk, InSync, LastWrite, LiveRow;
    OldRowStays(t, v, p, prior, q, next);
    RekeySyncedIff(t, v, p, prior, q, next);
    var tup := TupleAt(t, d, prior).value;
    TupleHasShape(t, d.cols, prior);
    PriorKey(t, v, p, prior, q, next);
    assert EntryKey(t, d, prior) == IK(t, d, tup, p);
    EntryKeysWritten(t, p, prior, q, next, d, tup, p);
    assert !Undisturbed(t, prior, RowAt(t, v, q), next, d);
  }

  lemma {:induction false} PriorKey(t: Table, v: KeyView, p: Bytes, prior: Row, q: Bytes, next: Row)
    requires Rekeys(t, v, p, prior, q, next)
    ensures PkOf(t, prior) == p
  {
    hide RK, TupleOf;
    assert v(RK(t, p)).Some?;
  }

  /** A table of one column holding the row ('1'): after UPDATE t SET id = 2 it holds two rows. */
  lemma {:induction false} TwoRowsAfterRekey(ns: Bytes, name: Bytes)
    ensures
      var t, one, two := Table(ns, name, [KInt], 0, []), [RC.Text([49])], [RC.Text([50])];
      var v := IS.OneRow(t, one);
      && Rekeys(t, v, [49], one, [50], two)
      && LiveRow(t, After(v, RekeyMuts(t, [49], one, [50], two)), one)
      && LiveRow(t, After(v, RekeyMuts(t, [49], one, [50], two)), two)
  {
    hide RK, RekeyMuts, After, LiveRow, InSync, RC.EncodeRow, RC.DecodeRow;
    var t, one, two := Table(ns, name, [KInt], 0, []), [RC.Text([49])], [RC.Text([50])];
    IS.OneRowInSync(t, one);
    IS.OneRowAt(t, one);
    OldRowStays(t, IS.OneRow(t, one), [49], one, [50], two);
  }
}
