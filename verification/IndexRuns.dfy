/** Runs of interleaved INSERT, UPDATE, DELETE and upsert over the step system, and the theorem that
    every committed state keeps every index exact. */
module IndexRuns {
  import opened Bytes
  import opened Versions
  import opened OrderEncoding
  import opened Keys
  import opened IndexMaintenance
  import RC = RowCodec
  import SI = SnapshotIsolation

  // ---- The statements replace one row ----

  lemma {:induction false} PutRowKeys(t: Table, pk: Bytes, prior: Option<seq<Datum>>, cells: seq<Datum>, q: Bytes)
    requires TableOk(t) && |cells| == |t.kinds| && (prior.Some? ==> |prior.value| == |t.kinds|)
    ensures LastWrite(PutMuts(t, pk, prior, cells), RK(t, q)) ==
      if q == pk then Some(Mutation(RK(t, q), RC.EncodeRow(cells), false)) else None
  {
    hide LastWrite, RK, EntryMuts;
    var k := RK(t, q);
    var drop := if prior.Some? then EntryMuts(t, t.defs, prior.value, pk, false) else [];
    var row := Mutation(RK(t, pk), RC.EncodeRow(cells), false);
    var add := EntryMuts(t, t.defs, cells, pk, true);
    LastWriteAppend(drop, [row] + add, k);
    LastWriteAppend([row], add, k);
    LastWriteSingle(row, k);
    LastWriteEmpty(k);
    EntryMutsMissRows(t, cells, pk, true, q);
    if prior.Some? { EntryMutsMissRows(t, prior.value, pk, false, q); }
    RowKeysDistinct(t, pk, q);
  }

  lemma {:induction false} PutEntryKeys(t: Table, pk: Bytes, prior: Option<seq<Datum>>, cells: seq<Datum>,
                                        d: IndexDef, tup: seq<Value>, q: Bytes)
    requires TableOk(t) && |cells| == |t.kinds| && (prior.Some? ==> |prior.value| == |t.kinds|)
    requires d in t.defs && HasShape(t, d, tup)
    ensures LastWrite(PutMuts(t, pk, prior, cells), IK(t, d, tup, q)) ==
      if q != pk then None
      else if TupleIn(t, d, Some(cells)) == Some(tup) then Some(Mutation(IK(t, d, tup, q), pk, false))
      else if TupleIn(t, d, prior) == Some(tup) then Some(Mutation(IK(t, d, tup, q), [], true))
      else None
  {
    hide LastWrite, IK, RK, EntryMuts, TupleOf;
    var k := IK(t, d, tup, q);
    var drop := if prior.Some? then EntryMuts(t, t.defs, prior.value, pk, false) else [];
    var row := Mutation(RK(t, pk), RC.EncodeRow(cells), false);
    var add := EntryMuts(t, t.defs, cells, pk, true);
    LastWriteAppend(drop, [row] + add, k);
    LastWriteAppend([row], add, k);
    LastWriteSingle(row, k);
    LastWriteEmpty(k);
    RowAndEntryDistinct(t, pk, d, tup, q);
    EntryMutsLast(t, t.defs, cells, pk, true, d, tup, q);
    if prior.Some? { EntryMutsLast(t, t.defs, prior.value, pk, false, d, tup, q); }
  }

  lemma {:induction false} EntryMutsOwn(t: Table, cells: seq<Datum>, pk: Bytes, add: bool)
    requires TableOk(t) && |cells| == |t.kinds|
    ensures forall m :: m in EntryMuts(t, t.defs, cells, pk, add) ==> OwnForm(t, m.key)
  {
    forall m | m in EntryMuts(t, t.defs, cells, pk, add) ensures OwnForm(t, m.key) {
      EntryMutsKeys(t, t.defs, cells, pk, add, m);
    }
  }

  lemma {:induction false} PutReplaces(t: Table, pk: Bytes, prior: Option<seq<Datum>>, cells: seq<Datum>)
    requires TableOk(t) && |cells| == |t.kinds| && (prior.Some? ==> |prior.value| == |t.kinds|)
    ensures ReplacesRow(t, PutMuts(t, pk, prior, cells), pk, prior, Some(cells))
  {
    hide LastWrite, IK, RK, EntryMuts, TupleOf;
    var ms := PutMuts(t, pk, prior, cells);
    forall q ensures LastWrite(ms, RK(t, q)) ==
        if q != pk then None else Some(Mutation(RK(t, q), RC.EncodeRow(cells), false)) {
      PutRowKeys(t, pk, prior, cells, q);
    }
    forall d, tup, q | d in t.defs && HasShape(t, d, tup)
      ensures LastWrite(ms, IK(t, d, tup, q)) ==
        if q != pk then None
        else if TupleIn(t, d, Some(cells)) == Some(tup) then Some(Mutation(IK(t, d, tup, q), pk, false))
        else if TupleIn(t, d, prior) == Some(tup) then Some(Mutation(IK(t, d, tup, q), [], true))
        else None
    {
      PutEntryKeys(t, pk, prior, cells, d, tup, q);
    }
    EntryMutsOwn(t, cells, pk, true);
    if prior.Some? { EntryMutsOwn(t, prior.value, pk, false); }
  }

  lemma {:induction false} DeleteReplaces(t: Table, pk: Bytes, prior: seq<Datum>)
    requires TableOk(t) && |prior| == |t.kinds|
    ensures ReplacesRow(t, DeleteMuts(t, pk, prior), pk, Some(prior), None)
  {
    hide LastWrite, IK, RK, EntryMuts, TupleOf;
    var ms := DeleteMuts(t, pk, prior);
    var row := Mutation(RK(t, pk), [], true);
    var drop := EntryMuts(t, t.defs, prior, pk, false);
    forall q ensures LastWrite(ms, RK(t, q)) == if q != pk then None else Some(Mutation(RK(t, q), [], true)) {
      LastWriteAppend([row], drop, RK(t, q));
      LastWriteSingle(row, RK(t, q));
      EntryMutsMissRows(t, prior, pk, false, q);
      RowKeysDistinct(t, pk, q);
    }
    forall d, tup, q | d in t.defs && HasShape(t, d, tup)
      ensures LastWrite(ms, IK(t, d, tup, q)) ==
        if q == pk && TupleIn(t, d, Some(prior)) == Some(tup) then Some(Mutation(IK(t, d, tup, q), [], true)) else None
    {
      var k := IK(t, d, tup, q);
      LastWriteAppend([row], drop, k);
      LastWriteSingle(row, k);
      RowAndEntryDistinct(t, pk, d, tup, q);
      EntryMutsLast(t, t.defs, prior, pk, false, d, tup, q);
    }
    EntryMutsOwn(t, prior, pk, false);
  }

  // ---- Views ----

  /** The serial state after `h` (or an empty one, when not `live`) under a buffer. */
  function View(base: Store, h: seq<SI.Commit>, live: bool, muts: seq<Mutation>, k: Key): Option<Bytes> {
    Overlay(muts, k, if live then SI.SerialRead(base, h, k) else None)
  }

  function RowIn(t: Table, raw: Option<Bytes>): (r: Option<seq<Datum>>)
    ensures r.Some? ==> |r.value| == |t.kinds|
  {
    if raw.None? then None else RC.DecodeRow(raw.value, |t.kinds|)
  }

  /** Row `pk` of the view is absent or a proper row, and its entries are exactly that row's. */
  ghost predicate SliceOk(t: Table, base: Store, h: seq<SI.Commit>, live: bool, muts: seq<Mutation>, pk: Bytes)
    requires TableOk(t)
  {
    var raw := View(base, h, live, muts, RK(t, pk));
    && (raw.Some? ==> RowIn(t, raw).Some? && RowOk(t, RowIn(t, raw).value, pk))
    && forall d, tup :: d in t.defs && HasShape(t, d, tup) ==>
         View(base, h, live, muts, IK(t, d, tup, pk)) ==
           if TupleIn(t, d, RowIn(t, raw)) == Some(tup) then Some(pk) else None
  }

  ghost predicate Synced(t: Table, base: Store, h: seq<SI.Commit>)
    requires TableOk(t)
  {
    && (forall pk :: SliceOk(t, base, h, true, [], pk))
    && (forall k :: SI.SerialRead(base, h, k).Some? ==> OwnForm(t, k) || Foreign(t, k))
  }

  /** The key lies under one of the table's index prefixes. */
  ghost predicate InIndex(t: Table, k: Key) {
    exists d :: d in t.defs && HasPrefix(k, IndexColumnPrefix(t.ns, MAIN_NAME, t.name, d.name))
  }

  /** Nothing of the table: neither its rows nor its index entries. */
  ghost predicate Foreign(t: Table, k: Key) {
    !HasPrefix(k, RowPrefix(t.ns, MAIN_NAME, t.name)) && !InIndex(t, k)
  }

  /** A transaction's buffer over its snapshot `h`: the view is exact; so are the rows it wrote even
      over an empty store; entries are written only together with their row. */
  ghost predicate BufferOk(t: Table, base: Store, h: seq<SI.Commit>, muts: seq<Mutation>)
    requires TableOk(t)
  {
    && (forall pk :: SliceOk(t, base, h, true, muts, pk))
    && (forall pk :: Writes(muts, RK(t, pk)) ==> SliceOk(t, base, h, false, muts, pk))
    && (forall d, tup, pk :: d in t.defs && HasShape(t, d, tup) && Writes(muts, IK(t, d, tup, pk)) ==>
        Writes(muts, RK(t, pk)))
    && (forall m :: m in muts ==> OwnForm(t, m.key) || Foreign(t, m.key))
  }

  lemma {:induction false} OwnIsNotForeign(t: Table, k: Key)
    requires TableOk(t) && OwnForm(t, k)
    ensures !Foreign(t, k)
  {
    if pk :| k == RK(t, pk) {
      RowKeyShape(t.ns, MAIN_NAME, t.name, pk);
    } else {
      var d, tup, pk :| d in t.defs && HasShape(t, d, tup) && k == IK(t, d, tup, pk);
      IndexKeyShape(t.ns, MAIN_NAME, t.name, d.name, EncodeTuple(tup), pk);
    }
  }

  // ---- A statement keeps the transaction's view exact ----

  /** Laying a row replacement over a slice. */
  lemma {:induction false} ReplacedSlice(t: Table, base: Store, h: seq<SI.Commit>, live: bool, muts: seq<Mutation>,
                                         ms: seq<Mutation>, pk: Bytes,
                                         prior: Option<seq<Datum>>, next: Option<seq<Datum>>)
    requires TableOk(t) && (prior.Some? ==> |prior.value| == |t.kinds|)
    requires next.Some? ==> |next.value| == |t.kinds| && RowOk(t, next.value, pk)
    requires ReplacesRow(t, ms, pk, prior, next)
    requires forall d, tup :: d in t.defs && HasShape(t, d, tup) && TupleIn(t, d, prior) != Some(tup) ==>
      View(base, h, live, muts, IK(t, d, tup, pk)) == None
    ensures SliceOk(t, base, h, live, muts + ms, pk)
  {
    hide LastWrite, IK, RK, TupleOf;
    var below := if live then SI.SerialRead(base, h, RK(t, pk)) else None;
    OverlayAppend(muts, ms, RK(t, pk), below);
    if next.Some? { RC.RowRoundTrip(next.value); }
    var raw := View(base, h, live, muts + ms, RK(t, pk));
    assert RowIn(t, raw) == next;
    forall d, tup | d in t.defs && HasShape(t, d, tup)
      ensures View(base, h, live, muts + ms, IK(t, d, tup, pk)) ==
        if TupleIn(t, d, next) == Some(tup) then Some(pk) else None
    {
      OverlayAppend(muts, ms, IK(t, d, tup, pk), if live then SI.SerialRead(base, h, IK(t, d, tup, pk)) else None);
    }
  }

  lemma {:induction false} UntouchedSlice(t: Table, base: Store, h: seq<SI.Commit>, live: bool, muts: seq<Mutation>,
                                          ms: seq<Mutation>, pk: Bytes)
    requires TableOk(t) && SliceOk(t, base, h, live, muts, pk)
    requires LastWrite(ms, RK(t, pk)) == None
    requires forall d, tup :: d in t.defs && HasShape(t, d, tup) ==> LastWrite(ms, IK(t, d, tup, pk)) == None
    ensures SliceOk(t, base, h, live, muts + ms, pk)
  {
    hide LastWrite, IK, RK, TupleOf;
    OverlayAppend(muts, ms, RK(t, pk), if live then SI.SerialRead(base, h, RK(t, pk)) else None);
    forall d, tup | d in t.defs && HasShape(t, d, tup)
      ensures View(base, h, live, muts + ms, IK(t, d, tup, pk)) == View(base, h, live, muts, IK(t, d, tup, pk))
    {
      OverlayAppend(muts, ms, IK(t, d, tup, pk), if live then SI.SerialRead(base, h, IK(t, d, tup, pk)) else None);
    }
  }

  /** Before the replacement, entries other than the prior row's are absent, snapshot or not. */
  lemma {:induction false} OtherEntriesAbsent(t: Table, base: Store, h: seq<SI.Commit>, live: bool, muts: seq<Mutation>,
                                              pk: Bytes, d: IndexDef, tup: seq<Value>)
    requires TableOk(t) && BufferOk(t, base, h, muts) && d in t.defs && HasShape(t, d, tup)
    requires TupleIn(t, d, RowIn(t, View(base, h, true, muts, RK(t, pk)))) != Some(tup)
    ensures View(base, h, live, muts, IK(t, d, tup, pk)) == None
  {
    hide IK, RK, TupleOf;
    if !live {
      if Writes(muts, RK(t, pk)) {
        assert View(base, h, false, muts, RK(t, pk)) == View(base, h, true, muts, RK(t, pk));
        assert SliceOk(t, base, h, false, muts, pk);
      } else {
        assert !Writes(muts, IK(t, d, tup, pk));
      }
    } else {
      assert SliceOk(t, base, h, true, muts, pk);
    }
  }

  lemma {:induction false} ReplaceKeepsBuffer(t: Table, base: Store, h: seq<SI.Commit>, muts: seq<Mutation>,
                                              ms: seq<Mutation>, pk: Bytes, next: Option<seq<Datum>>)
    requires TableOk(t) && BufferOk(t, base, h, muts)
    requires next.Some? ==> |next.value| == |t.kinds| && RowOk(t, next.value, pk)
    requires ReplacesRow(t, ms, pk, RowIn(t, View(base, h, true, muts, RK(t, pk))), next)
    ensures BufferOk(t, base, h, muts + ms)
  {
    hide LastWrite, IK, RK, TupleOf, View, OwnForm, Foreign, Writes;
    var prior := RowIn(t, View(base, h, true, muts, RK(t, pk)));
    forall live: bool ensures SliceOk(t, base, h, live, muts + ms, pk) {
      forall d, tup | d in t.defs && HasShape(t, d, tup) && TupleIn(t, d, prior) != Some(tup)
        ensures View(base, h, live, muts, IK(t, d, tup, pk)) == None
      {
        OtherEntriesAbsent(t, base, h, live, muts, pk, d, tup);
      }
      ReplacedSlice(t, base, h, live, muts, ms, pk, prior, next);
    }
    forall q ensures SliceOk(t, base, h, true, muts + ms, q) {
      if q != pk { UntouchedSlice(t, base, h, true, muts, ms, q); }
    }
    forall q | Writes(muts + ms, RK(t, q)) ensures SliceOk(t, base, h, false, muts + ms, q) {
      if q != pk {
        LastWriteAppend(muts, ms, RK(t, q));
        UntouchedSlice(t, base, h, false, muts, ms, q);
      }
    }
    forall d, tup, q | d in t.defs && HasShape(t, d, tup) && Writes(muts + ms, IK(t, d, tup, q))
      ensures Writes(muts + ms, RK(t, q))
    {
      LastWriteAppend(muts, ms, IK(t, d, tup, q));
      LastWriteAppend(muts, ms, RK(t, q));
    }
  }

  lemma {:induction false} ForeignMisses(t: Table, ms: seq<Mutation>, k: Key)
    requires TableOk(t) && OwnForm(t, k) && forall m :: m in ms ==> Foreign(t, m.key)
    ensures LastWrite(ms, k) == None
  {
    OwnIsNotForeign(t, k);
  }

  lemma {:induction false} ForeignKeepsBuffer(t: Table, base: Store, h: seq<SI.Commit>, muts: seq<Mutation>,
                                              ms: seq<Mutation>)
    requires TableOk(t) && BufferOk(t, base, h, muts) && forall m :: m in ms ==> Foreign(t, m.key)
    ensures BufferOk(t, base, h, muts + ms)
  {
    hide LastWrite, IK, RK, TupleOf, View, Foreign, Writes;
    forall pk ensures LastWrite(ms, RK(t, pk)) == None {
      ForeignMisses(t, ms, RK(t, pk));
    }
    forall d, tup, pk | d in t.defs && HasShape(t, d, tup) ensures LastWrite(ms, IK(t, d, tup, pk)) == None {
      ForeignMisses(t, ms, IK(t, d, tup, pk));
    }
    forall q ensures SliceOk(t, base, h, true, muts + ms, q) {
      UntouchedSlice(t, base, h, true, muts, ms, q);
    }
    forall q | Writes(muts + ms, RK(t, q)) ensures SliceOk(t, base, h, false, muts + ms, q) {
      LastWriteAppend(muts, ms, RK(t, q));
      UntouchedSlice(t, base, h, false, muts, ms, q);
    }
    forall d, tup, q | d in t.defs && HasShape(t, d, tup) && Writes(muts + ms, IK(t, d, tup, q))
      ensures Writes(muts + ms, RK(t, q))
    {
      LastWriteAppend(muts, ms, IK(t, d, tup, q));
      LastWriteAppend(muts, ms, RK(t, q));
    }
  }

  lemma {:induction false} EmptyBufferOk(t: Table, base: Store, h: seq<SI.Commit>)
    requires TableOk(t) && Synced(t, base, h)
    ensures BufferOk(t, base, h, [])
  {
  }

  // ---- A commit keeps the committed state exact ----

  lemma {:induction false} CommitSlice(t: Table, base: Store, hs: seq<SI.Commit>, h: seq<SI.Commit>, c: SI.Commit,
                                       pk: Bytes)
    requires TableOk(t) && Synced(t, base, hs) && Synced(t, base, h) && BufferOk(t, base, hs, c.muts)
    requires Writes(c.muts, RK(t, pk)) ==>
      SI.SerialRead(base, h, RK(t, pk)) == SI.SerialRead(base, hs, RK(t, pk)) || SI.SerialRead(base, h, RK(t, pk)).None?
    ensures SliceOk(t, base, h + [c], true, [], pk)
  {
    hide IK, RK, TupleOf, Writes, LastWrite, RowOk;
    var h' := h + [c];
    assert h'[..|h|] == h;
    LastWriteEmpty(RK(t, pk));
    var same := SI.SerialRead(base, h, RK(t, pk)) == SI.SerialRead(base, hs, RK(t, pk));
    assert SliceOk(t, base, h, true, [], pk) && SliceOk(t, base, hs, true, [], pk);
    assert SliceOk(t, base, hs, true, c.muts, pk);
    assert View(base, h', true, [], RK(t, pk)) == View(base, h, true, c.muts, RK(t, pk));
    forall d, tup | d in t.defs && HasShape(t, d, tup)
      ensures View(base, h', true, [], IK(t, d, tup, pk)) ==
        if TupleIn(t, d, RowIn(t, View(base, h', true, [], RK(t, pk)))) == Some(tup) then Some(pk) else None
    {
      LastWriteEmpty(IK(t, d, tup, pk));
      assert View(base, h', true, [], IK(t, d, tup, pk)) == View(base, h, true, c.muts, IK(t, d, tup, pk));
      if Writes(c.muts, RK(t, pk)) && !same {
        assert SliceOk(t, base, hs, false, c.muts, pk);
      }
    }
  }

  lemma {:induction false} CommitSyncs(t: Table, base: Store, hs: seq<SI.Commit>, h: seq<SI.Commit>, c: SI.Commit)
    requires TableOk(t) && Synced(t, base, hs) && Synced(t, base, h) && BufferOk(t, base, hs, c.muts)
    requires forall pk :: Writes(c.muts, RK(t, pk)) ==>
      SI.SerialRead(base, h, RK(t, pk)) == SI.SerialRead(base, hs, RK(t, pk)) || SI.SerialRead(base, h, RK(t, pk)).None?
    ensures Synced(t, base, h + [c])
  {
    hide IK, RK, SliceOk;
    forall pk ensures SliceOk(t, base, h + [c], true, [], pk) {
      CommitSlice(t, base, hs, h, c, pk);
    }
    assert (h + [c])[..|h|] == h;
  }

  lemma {:induction false} IndexOwnIsEntry(t: Table, k: Key)
    requires TableOk(t) && InIndex(t, k)
    ensures OwnForm(t, k) || Foreign(t, k) ==> EntryForm(t, k)
  {
    if pk :| k == RK(t, pk) {
      var d :| d in t.defs && HasPrefix(k, IndexColumnPrefix(t.ns, MAIN_NAME, t.name, d.name));
      RowKeyShape(t.ns, MAIN_NAME, t.name, pk);
      DataAndIndexDisjoint(t.ns, MAIN_NAME, t.name, t.name, d.name, k);
    }
  }

  // ---- Runs ----

  /** One step of a client: a statement on one row of the table, or anything that does not touch
      the table. A multi-row UPDATE or DELETE is one step per row it selected: rows of one
      statement have distinct primary keys, so each is still as the statement's scan saw it. */
  datatype Op =
    | Insert(tid: SI.Tid, cells: seq<Datum>)
    | Upsert(tid: SI.Tid, cells: seq<Datum>, doUpdate: Option<seq<Datum>>)
    | UpdateRow(tid: SI.Tid, pk: Bytes, cells: seq<Datum>)
    | DeleteRow(tid: SI.Tid, pk: Bytes)
    | Other(event: SI.Event)

  /** The new row is well typed and keeps the primary key. */
  ghost predicate Writable(t: Table, cells: seq<Datum>, pk: Bytes)
    requires TableOk(t)
  {
    |cells| == |t.kinds| && RowOk(t, cells, pk)
  }

  /** What the statement buffers; None when it fails. `raw` is the row the transaction sees. */
  ghost function StatementMuts(t: Table, op: Op, pk: Bytes, raw: Option<Bytes>): Option<seq<Mutation>>
    requires TableOk(t) && !op.Other?
  {
    match op
    case Insert(_, cells) =>
      if raw.Some? || !Writable(t, cells, pk) then None else Some(PutMuts(t, pk, None, cells))
    case Upsert(_, cells, upd) =>
      if raw.None? then (if Writable(t, cells, pk) then Some(PutMuts(t, pk, None, cells)) else None)
      else if upd.None? then Some([])
      else if RowIn(t, raw).None? || !Writable(t, upd.value, pk) then None
      else Some(PutMuts(t, pk, RowIn(t, raw), upd.value))
    case UpdateRow(_, _, cells) =>
      if raw.None? then Some([])
      else if RowIn(t, raw).None? || !Writable(t, cells, pk) then None
      else Some(PutMuts(t, pk, RowIn(t, raw), cells))
    case DeleteRow(_, _) =>
      if raw.None? then Some([])
      else if RowIn(t, raw).None? then None
      else Some(DeleteMuts(t, pk, RowIn(t, raw).value))
  }

  /** The primary key a statement addresses; None is a missing or NULL key. */
  function TargetKey(t: Table, op: Op): Option<Bytes>
    requires !op.Other?
  {
    match op
    case Insert(_, cells) => if t.pk < |cells| && cells[t.pk].Text? then Some(cells[t.pk].text) else None
    case Upsert(_, cells, _) => if t.pk < |cells| && cells[t.pk].Text? then Some(cells[t.pk].text) else None
    case UpdateRow(_, pk, _) => Some(pk)
    case DeleteRow(_, pk) => Some(pk)
  }

  function Tid(op: Op): SI.Tid
    requires !op.Other?
  {
    match op { case Insert(x, _) => x case Upsert(x, _, _) => x case UpdateRow(x, _, _) => x case DeleteRow(x, _) => x }
  }

  ghost function StepOp(det: Detector, t: Table, s: SI.State, op: Op): Option<SI.State>
    requires TableOk(t)
  {
    if op.Other? then
      if op.event.Buffer? && exists m :: m in op.event.muts && !Foreign(t, m.key) then None
      else SI.Step(det, s, op.event)
    else if Tid(op) !in s.txns || s.txns[Tid(op)].done || TargetKey(t, op).None? then None
    else
      var pk := TargetKey(t, op).value;
      match StatementMuts(t, op, pk, SI.Get(s, Tid(op), RK(t, pk)))
      case None => None
      case Some(ms) => SI.Step(det, s, SI.Buffer(Tid(op), ms))
  }

  ghost function RunOps(det: Detector, t: Table, s: SI.State, ops: seq<Op>): Option<SI.State>
    requires TableOk(t)
    decreases |ops|
  {
    if ops == [] then Some(s)
    else match StepOp(det, t, s, ops[0]) { case None => None case Some(s') => RunOps(det, t, s', ops[1..]) }
  }

  ghost predicate CleanOps(det: Detector, t: Table, s: SI.State, ops: seq<Op>)
    requires TableOk(t)
    decreases |ops|
  {
    ops == [] ||
    ((ops[0].Other? ==> SI.CleanStep(s, ops[0].event)) &&
     match StepOp(det, t, s, ops[0]) { case None => true case Some(s') => CleanOps(det, t, s', ops[1..]) })
  }

  ghost predicate IndexInv(det: Detector, t: Table, s: SI.State)
    requires TableOk(t)
  {
    && SI.Inv(det, s)
    && (forall i :: 0 <= i <= |s.history| ==> Synced(t, s.base, s.history[..i]))
    && (forall x :: x in s.txns ==> BufferOk(t, s.base, Snapshot(s, x), s.txns[x].muts))
  }

  /** The commits transaction `x` sees. */
  ghost function Snapshot(s: SI.State, x: SI.Tid): seq<SI.Commit>
    requires x in s.txns && SI.StartClock(s.base) <= s.txns[x].readTS
    requires SI.SnapshotLength(s, s.txns[x].readTS) <= |s.history|
  {
    s.history[..SI.SnapshotLength(s, s.txns[x].readTS)]
  }

  lemma {:induction false} GetIsView(det: Detector, t: Table, s: SI.State, x: SI.Tid, k: Key)
    requires SI.Inv(det, s) && x in s.txns
    ensures SI.Get(s, x, k) == View(s.base, Snapshot(s, x), true, s.txns[x].muts, k)
  {
    SI.SnapshotIsPrefix(det, s, s.txns[x].readTS, k);
  }

  /** A statement's mutations replace the row the transaction sees, or are empty. */
  lemma {:induction false} StatementReplaces(t: Table, op: Op, pk: Bytes, raw: Option<Bytes>)
    requires TableOk(t) && !op.Other? && StatementMuts(t, op, pk, raw).Some?
    ensures var ms := StatementMuts(t, op, pk, raw).value;
      || ms == []
      || (exists next: Option<seq<Datum>> :: (next.Some? ==>
        Writable(t, next.value, pk)) && ReplacesRow(t, ms, pk, RowIn(t, raw), next))
  {
    hide ReplacesRow, PutMuts, DeleteMuts;
    var ms := StatementMuts(t, op, pk, raw).value;
    match op
    case Insert(_, cells) =>
      PutReplaces(t, pk, None, cells);
      assert RowIn(t, raw) == None;
      ReplacesWitness(t, ms, pk, RowIn(t, raw), Some(cells));
    case Upsert(_, cells, upd) =>
      if raw.None? {
        PutReplaces(t, pk, None, cells);
        assert RowIn(t, raw) == None;
        ReplacesWitness(t, ms, pk, RowIn(t, raw), Some(cells));
      } else if upd.Some? {
        PutReplaces(t, pk, RowIn(t, raw), upd.value);
        ReplacesWitness(t, ms, pk, RowIn(t, raw), Some(upd.value));
      }
    case UpdateRow(_, _, cells) =>
      if raw.Some? {
        PutReplaces(t, pk, RowIn(t, raw), cells);
        ReplacesWitness(t, ms, pk, RowIn(t, raw), Some(cells));
      }
    case DeleteRow(_, _) =>
      if raw.Some? {
        DeleteReplaces(t, pk, RowIn(t, raw).value);
        ReplacesWitness(t, ms, pk, RowIn(t, raw), None);
      }
  }

  lemma {:induction false} ReplacesWitness(t: Table, ms: seq<Mutation>, pk: Bytes, prior: Option<seq<Datum>>,
                                           next: Option<seq<Datum>>)
    requires TableOk(t) && (prior.Some? ==> |prior.value| == |t.kinds|)
    requires (next.Some? ==> Writable(t, next.value, pk)) && ReplacesRow(t, ms, pk, prior, next)
    ensures exists n: Option<seq<Datum>> :: (n.Some? ==> Writable(t, n.value, pk)) && ReplacesRow(t, ms, pk, prior, n)
  {
  }

  /** The statement addresses the row `pk` and any new row it brings is well typed and has that key. */
  ghost predicate Addresses(t: Table, op: Op, pk: Bytes)
    requires TableOk(t) && !op.Other?
  {
    && (op.UpdateRow? || op.DeleteRow? ==> op.pk == pk)
    && (!op.DeleteRow? ==> Writable(t, op.cells, pk))
    && (op.Upsert? && op.doUpdate.Some? ==> Writable(t, op.doUpdate.value, pk))
  }

  /** What a transaction sees after its own statement: INSERT is refused if and only if the row is there; the row is
      then the new one, the DO UPDATE one, the old one or none; no other row is changed. */
  lemma {:induction false} StatementShows(det: Detector, t: Table, s: SI.State, op: Op, pk: Bytes, q: Bytes)
    requires TableOk(t) && !op.Other? && Tid(op) in s.txns && !s.txns[Tid(op)].done && !SI.Holds(s, Tid(op))
    requires Addresses(t, op, pk)
    requires SI.Get(s, Tid(op), RK(t, pk)).Some? ==> RowIn(t, SI.Get(s, Tid(op), RK(t, pk))).Some?
    ensures
      var raw, after := SI.Get(s, Tid(op), RK(t, pk)), StepOp(det, t, s, op);
      && (after.None? <==> op.Insert? && raw.Some?)
      && (after.Some? ==>
            && Tid(op) in after.value.txns
            && SI.Get(after.value, Tid(op), RK(t, pk)) ==
                 (if op.DeleteRow? || (op.UpdateRow? && raw.None?) then None
                  else if op.Upsert? && raw.Some? then
                    if op.doUpdate.None? then raw else Some(RC.EncodeRow(op.doUpdate.value))
                  else Some(RC.EncodeRow(op.cells)))
            && (q != pk ==> SI.Get(after.value, Tid(op), RK(t, q)) == SI.Get(s, Tid(op), RK(t, q))))
  {
    hide PutMuts, DeleteMuts, LastWrite, RK, RC.EncodeRow, ReadAt, TupleOf;
    var x := Tid(op);
    var raw := SI.Get(s, x, RK(t, pk));
    assert TargetKey(t, op) == Some(pk);
    if StatementMuts(t, op, pk, raw).Some? {
      var ms := StatementMuts(t, op, pk, raw).value;
      StatementRows(t, op, pk, raw, pk);
      StatementRows(t, op, pk, raw, q);
      OverlayAppend(s.txns[x].muts, ms, RK(t, pk), ReadAt(s.store.versions, RK(t, pk), s.txns[x].readTS));
      OverlayAppend(s.txns[x].muts, ms, RK(t, q), ReadAt(s.store.versions, RK(t, q), s.txns[x].readTS));
    }
  }

  lemma {:induction false} StatementRows(t: Table, op: Op, pk: Bytes, raw: Option<Bytes>, q: Bytes)
    requires TableOk(t) && !op.Other? && Addresses(t, op, pk) && StatementMuts(t, op, pk, raw).Some?
    ensures LastWrite(StatementMuts(t, op, pk, raw).value, RK(t, q)) ==
      if q != pk || (raw.None? && (op.UpdateRow? || op.DeleteRow?)) ||
         (op.Upsert? && raw.Some? && op.doUpdate.None?) then None
      else if op.DeleteRow? then Some(Mutation(RK(t, q), [], true))
      else
        var cells := if op.Upsert? && raw.Some? then op.doUpdate.value else op.cells;
        Some(Mutation(RK(t, q), RC.EncodeRow(cells), false))
  {
    hide PutMuts, DeleteMuts, LastWrite, RK, RC.EncodeRow, TupleOf, ReplacesRow;
    LastWriteEmpty(RK(t, q));
    match op
    case Insert(_, cells) => PutRowKeys(t, pk, None, cells, q);
    case Upsert(_, cells, upd) =>
      if raw.None? {
        PutRowKeys(t, pk, None, cells, q);
      } else if upd.Some? {
        PutRowKeys(t, pk, RowIn(t, raw), upd.value, q);
      }
    case UpdateRow(_, _, cells) =>
      if raw.Some? { PutRowKeys(t, pk, RowIn(t, raw), cells, q); }
    case DeleteRow(_, _) =>
      if raw.Some? { DeleteRowKeys(t, pk, RowIn(t, raw).value, q); }
  }

  lemma {:induction false} DeleteRowKeys(t: Table, pk: Bytes, prior: seq<Datum>, q: Bytes)
    requires TableOk(t) && |prior| == |t.kinds|
    ensures LastWrite(DeleteMuts(t, pk, prior), RK(t, q)) ==
      if q == pk then Some(Mutation(RK(t, q), [], true)) else None
  {
    DeleteReplaces(t, pk, prior);
  }

  /** A statement that read its row through the buffer keeps the buffer in order. */
  lemma {:induction false} StatementBuffer(t: Table, base: Store, h: seq<SI.Commit>, muts: seq<Mutation>, op: Op,
                                           pk: Bytes)
    requires TableOk(t) && BufferOk(t, base, h, muts) && !op.Other?
    requires StatementMuts(t, op, pk, View(base, h, true, muts, RK(t, pk))).Some?
    ensures BufferOk(t, base, h, muts + StatementMuts(t, op, pk, View(base, h, true, muts, RK(t, pk))).value)
  {
    hide BufferOk, ReplacesRow, StatementMuts, RK, View;
    var raw := View(base, h, true, muts, RK(t, pk));
    StatementReplaces(t, op, pk, raw);
    var ms := StatementMuts(t, op, pk, raw).value;
    if ms == [] {
      assert muts + ms == muts;
    } else {
      var next: Option<seq<Datum>> :| (next.Some? ==>
        Writable(t, next.value, pk)) && ReplacesRow(t, ms, pk, RowIn(t, raw), next);
      ReplaceKeepsBuffer(t, base, h, muts, ms, pk, next);
    }
  }

  lemma {:induction false} StatementKeepsBuffer(det: Detector, t: Table, s: SI.State, op: Op)
    requires TableOk(t) && IndexInv(det, t, s) && !op.Other? && StepOp(det, t, s, op).Some?
    ensures Tid(op) in s.txns && Tid(op) in StepOp(det, t, s, op).value.txns
    ensures BufferOk(t, s.base, Snapshot(s, Tid(op)), StepOp(det, t, s, op).value.txns[Tid(op)].muts)
  {
    hide BufferOk, StatementMuts, View;
    var x, pk := Tid(op), TargetKey(t, op).value;
    GetIsView(det, t, s, x, RK(t, pk));
    StatementBuffer(t, s.base, Snapshot(s, x), s.txns[x].muts, op, pk);
  }

  lemma {:induction false} SnapshotStays(det: Detector, s: SI.State, s': SI.State, x: SI.Tid)
    requires SI.Inv(det, s) && SI.Inv(det, s') && s.history <= s'.history && s'.base == s.base
    requires x in s.txns && x in s'.txns && s'.txns[x].readTS == s.txns[x].readTS
    ensures Snapshot(s', x) == Snapshot(s, x)
  {
  }

  lemma {:induction false} StatementInv(det: Detector, t: Table, s: SI.State, op: Op)
    requires TableOk(t) && IndexInv(det, t, s) && !op.Other? && StepOp(det, t, s, op).Some?
    ensures IndexInv(det, t, StepOp(det, t, s, op).value)
  {
    hide BufferOk, Synced, StatementMuts;
    StatementKeepsBuffer(det, t, s, op);
    var x, pk := Tid(op), TargetKey(t, op).value;
    var ms := StatementMuts(t, op, pk, SI.Get(s, x, RK(t, pk))).value;
    SI.StepInv(det, s, SI.Buffer(x, ms));
    var s' := StepOp(det, t, s, op).value;
    forall y | y in s'.txns ensures BufferOk(t, s'.base, Snapshot(s', y), s'.txns[y].muts) {
      SnapshotStays(det, s, s', y);
    }
  }

  lemma {:induction false} PublishSyncs(det: Detector, t: Table, s: SI.State)
    requires TableOk(t) && IndexInv(det, t, s) && SI.Step(det, s, SI.Publish).Some?
    ensures Synced(t, s.base, SI.Step(det, s, SI.Publish).value.history)
  {
    hide BufferOk, Synced, RK;
    var x := s.lock.tid;
    var c := SI.Commit(s.lock.ts, s.txns[x].readTS, s.txns[x].muts);
    assert s.history[..|s.history|] == s.history;
    forall pk | Writes(c.muts, RK(t, pk))
      ensures SI.SerialRead(s.base, s.history, RK(t, pk)) == SI.SerialRead(s.base, Snapshot(s, x), RK(t, pk))
        || SI.SerialRead(s.base, s.history, RK(t, pk)).None?
    {
      SI.WrittenKeyUnchanged(det, s, RK(t, pk));
      SI.SnapshotIsPrefix(det, s, s.txns[x].readTS, RK(t, pk));
    }
    CommitSyncs(t, s.base, Snapshot(s, x), s.history, c);
  }

  lemma {:induction false} OtherStep(det: Detector, t: Table, s: SI.State, e: SI.Event)
    requires TableOk(t) && StepOp(det, t, s, Other(e)).Some?
    ensures SI.Step(det, s, e) == StepOp(det, t, s, Other(e))
    ensures e.Buffer? ==> forall m :: m in e.muts ==> Foreign(t, m.key)
  {
    hide SI.Step;
  }

  lemma {:induction false} SnapshotDefined(det: Detector, s: SI.State, x: SI.Tid)
    requires SI.Inv(det, s) && x in s.txns
    ensures SI.StartClock(s.base) <= s.txns[x].readTS && SI.SnapshotLength(s, s.txns[x].readTS) <= |s.history|
  {
  }

  lemma {:induction false} OtherBuffer(det: Detector, t: Table, s: SI.State, e: SI.Event, y: SI.Tid)
    requires TableOk(t) && IndexInv(det, t, s) && StepOp(det, t, s, Other(e)).Some?
    requires StepOp(det, t, s, Other(e)) == SI.Step(det, s, e) && SI.Inv(det, SI.Step(det, s, e).value)
    requires y in SI.Step(det, s, e).value.txns
    ensures var s' := SI.Step(det, s, e).value; BufferOk(t, s'.base, Snapshot(s', y), s'.txns[y].muts)
  {
    hide SI.Step, SI.Inv, BufferOk, Synced, StepOp;
    var s' := SI.Step(det, s, e).value;
    SI.StepHistory(det, s, e);
    SI.StepBuffers(det, s, e, y);
    OtherStep(det, t, s, e);
    SnapshotDefined(det, s', y);
    if y !in s.txns {
      BeginSnapshot(det, s, e, y);
      EmptyBufferOk(t, s.base, Snapshot(s', y));
    } else {
      SnapshotDefined(det, s, y);
      SnapshotStays(det, s, s', y);
      if e.Buffer? && e.tid == y {
        ForeignKeepsBuffer(t, s.base, Snapshot(s, y), s.txns[y].muts, e.muts);
      } else if e.Rollback? && e.tid == y {
        EmptyBufferOk(t, s.base, Snapshot(s', y));
      }
    }
  }

  lemma {:induction false} BeginSnapshot(det: Detector, s: SI.State, e: SI.Event, y: SI.Tid)
    requires SI.Inv(det, s) && SI.Step(det, s, e).Some? && SI.Inv(det, SI.Step(det, s, e).value)
    requires y in SI.Step(det, s, e).value.txns && y !in s.txns
    ensures Snapshot(SI.Step(det, s, e).value, y) == s.history[..|s.history|]
  {
  }

  lemma {:induction false} OtherInv(det: Detector, t: Table, s: SI.State, e: SI.Event)
    requires TableOk(t) && IndexInv(det, t, s) && SI.CleanStep(s, e) && StepOp(det, t, s, Other(e)).Some?
    ensures IndexInv(det, t, StepOp(det, t, s, Other(e)).value)
  {
    hide SI.Step, SI.Inv, BufferOk, Synced, StepOp;
    OtherStep(det, t, s, e);
    var s' := SI.Step(det, s, e).value;
    SI.StepInv(det, s, e);
    SI.StepHistory(det, s, e);
    if e.Publish? {
      PublishSyncs(det, t, s);
      PublishLength(det, s);
    }
    forall y | y in s'.txns
      ensures SI.StartClock(s'.base) <= s'.txns[y].readTS && SI.SnapshotLength(s', s'.txns[y].readTS) <= |s'.history|
      ensures BufferOk(t, s'.base, Snapshot(s', y), s'.txns[y].muts)
    {
      SnapshotDefined(det, s', y);
      OtherBuffer(det, t, s, e, y);
    }
    forall i | 0 <= i <= |s'.history| ensures Synced(t, s'.base, s'.history[..i]) {
      if i <= |s.history| {
        assert s'.history[..i] == s.history[..i];
      } else {
        assert s'.history[..i] == s'.history;
      }
    }
  }

  lemma {:induction false} PublishLength(det: Detector, s: SI.State)
    requires SI.Step(det, s, SI.Publish).Some?
    ensures |SI.Step(det, s, SI.Publish).value.history| == |s.history| + 1
  {
  }

  lemma {:induction false} RunOpsInv(det: Detector, t: Table, s: SI.State, ops: seq<Op>)
    requires TableOk(t) && IndexInv(det, t, s) && CleanOps(det, t, s, ops) && RunOps(det, t, s, ops).Some?
    ensures IndexInv(det, t, RunOps(det, t, s, ops).value) && RunOps(det, t, s, ops).value.base == s.base
    decreases |ops|
  {
    hide IndexInv;
    if ops != [] {
      var s' := StepOp(det, t, s, ops[0]).value;
      if ops[0].Other? {
        OtherInv(det, t, s, ops[0].event);
      } else {
        StatementInv(det, t, s, ops[0]);
      }
      StepOpBase(det, t, s, ops[0]);
      hide StepOp;
      RunOpsInv(det, t, s', ops[1..]);
    }
  }

  lemma {:induction false} StepOpBase(det: Detector, t: Table, s: SI.State, op: Op)
    requires TableOk(t) && StepOp(det, t, s, op).Some?
    ensures StepOp(det, t, s, op).value.base == s.base
  {
  }

  // ---- The theorem ----

  /** Row `pk` is live after `h` with tuple `tup` in index `d`, and (k, v) is its entry. */
  ghost predicate IsEntryOf(t: Table, base: Store, h: seq<SI.Commit>, d: IndexDef, k: Key, v: Bytes, pk: Bytes,
                            tup: seq<Value>)
    requires TableOk(t) && d in t.defs
  {
    && HasShape(t, d, tup) && k == IK(t, d, tup, pk) && v == pk
    && TupleIn(t, d, RowIn(t, SI.SerialRead(base, h, RK(t, pk)))) == Some(tup)
  }

  /** The entries of every index are exactly one per live row with non-NULL indexed columns. */
  ghost predicate IndexExact(t: Table, base: Store, h: seq<SI.Commit>)
    requires TableOk(t)
  {
    forall d, k, v :: d in t.defs && HasPrefix(k, IndexColumnPrefix(t.ns, MAIN_NAME, t.name, d.name)) ==>
      (SI.SerialRead(base, h, k) == Some(v) <==> exists pk, tup :: IsEntryOf(t, base, h, d, k, v, pk, tup))
  }

  lemma {:induction false} EntryUnderItsPrefix(t: Table, d: IndexDef, e: IndexDef, tup: seq<Value>, pk: Bytes)
    requires TableOk(t) && d in t.defs && e in t.defs
    requires HasPrefix(IK(t, e, tup, pk), IndexColumnPrefix(t.ns, MAIN_NAME, t.name, d.name))
    ensures d == e
  {
    IndexKeyShape(t.ns, MAIN_NAME, t.name, e.name, EncodeTuple(tup), pk);
    IndexesDisjoint(t.ns, MAIN_NAME, t.name, d.name, e.name, IK(t, e, tup, pk));
  }

  lemma {:induction false} SyncedIsExact(t: Table, base: Store, h: seq<SI.Commit>)
    requires TableOk(t) && Synced(t, base, h)
    ensures IndexExact(t, base, h)
  {
    hide IK, RK, TupleOf, RowOk;
    forall d, k, v | d in t.defs && HasPrefix(k, IndexColumnPrefix(t.ns, MAIN_NAME, t.name, d.name))
      ensures SI.SerialRead(base, h, k) == Some(v) <==> exists pk, tup :: IsEntryOf(t, base, h, d, k, v, pk, tup)
    {
      LastWriteEmpty(k);
      if SI.SerialRead(base, h, k) == Some(v) {
        IndexOwnIsEntry(t, k);
        var e, tup, pk :| e in t.defs && HasShape(t, e, tup) && k == IK(t, e, tup, pk);
        EntryUnderItsPrefix(t, d, e, tup, pk);
        LastWriteEmpty(RK(t, pk));
        assert SliceOk(t, base, h, true, [], pk);
        assert IsEntryOf(t, base, h, d, k, v, pk, tup);
      }
      if pk, tup :| IsEntryOf(t, base, h, d, k, v, pk, tup) {
        LastWriteEmpty(RK(t, pk));
        assert SliceOk(t, base, h, true, [], pk);
      }
    }
  }

  /** A table nobody has written is in sync. */
  lemma {:induction false} FreshTableSynced(t: Table, base: Store)
    requires TableOk(t) && forall k, ts :: (k, ts) in base.versions ==> Foreign(t, k)
    ensures Synced(t, base, [])
  {
    forall k | !Foreign(t, k) ensures SI.SerialRead(base, [], k) == None {
      ReadUnwritten(base.versions, k, SI.StartClock(base));
    }
    hide IK, RK, TupleOf, RowOk;
    forall pk ensures SliceOk(t, base, [], true, [], pk) {
      OwnIsNotForeign(t, RK(t, pk));
      forall d, tup | d in t.defs && HasShape(t, d, tup) ensures View(base, [], true, [], IK(t, d, tup, pk)) == None {
        OwnIsNotForeign(t, IK(t, d, tup, pk));
      }
    }
  }

  /** In every interleaved run of INSERT, UPDATE, DELETE and upsert from a synchronised table, after
      every commit the entries of every index are exactly one (encoded tuple, pk) per live row whose
      indexed columns are non-NULL: none stale, none missing; and the same holds of every row in
      every transaction's own view. It holds for the shipped LatestVersion too. */
  lemma {:induction false} IndexExactInEveryRun(det: Detector, t: Table, base: Store, ops: seq<Op>)
    requires TableOk(t) && WellFormed(base) && Synced(t, base, [])
    requires CleanOps(det, t, SI.Start(base), ops) && RunOps(det, t, SI.Start(base), ops).Some?
    ensures var s := RunOps(det, t, SI.Start(base), ops).value;
      && SI.Inv(det, s)
      && (forall i :: 0 <= i <= |s.history| ==> IndexExact(t, base, s.history[..i]))
      && (forall x, pk :: x in s.txns ==> SliceOk(t, base, Snapshot(s, x), true, s.txns[x].muts, pk))
  {
    StartIndexInv(det, t, base);
    RunOpsInv(det, t, SI.Start(base), ops);
    hide Synced, IndexExact, SliceOk;
    var s := RunOps(det, t, SI.Start(base), ops).value;
    forall i | 0 <= i <= |s.history| ensures IndexExact(t, base, s.history[..i]) {
      SyncedIsExact(t, base, s.history[..i]);
    }
  }

  lemma {:induction false} StartIndexInv(det: Detector, t: Table, base: Store)
    requires TableOk(t) && WellFormed(base) && Synced(t, base, [])
    ensures IndexInv(det, t, SI.Start(base))
  {
    SI.StartInv(det, base);
    var s := SI.Start(base);
    forall i | 0 <= i <= |s.history| ensures s.history[..i] == [] {}
  }
}
