/** Secondary indexes when flushes fail part-way (engine/internal/executor/index.go over
    engine/internal/transactions/engine.go): which leftovers keep every index exact, in every run. */
module IndexFaults {
  import opened Bytes
  import opened Versions
  import opened OrderEncoding
  import opened IndexMaintenance
  import opened IndexRuns
  import P = PartialFlush
  import SI = SnapshotIsolation

  /** Bookkeeping beside a client step. */
  function TrackOp(s: SI.State, tr: P.Track, op: Op): P.Track {
    if op.Other? then P.TrackStep(s, tr, op.event) else tr
  }

  ghost function TrackOps(det: Detector, t: Table, s: SI.State, tr: P.Track, ops: seq<Op>): P.Track
    requires TableOk(t)
    decreases |ops|
  {
    if ops == [] then tr
    else match StepOp(det, t, s, ops[0])
      case None => tr
      case Some(s') => TrackOps(det, t, s', TrackOp(s, tr, ops[0]), ops[1..])
  }

  /** Under every advance the leftovers are harmless to the rows of the table. */
  ghost predicate RowsUnharmed(t: Table, base: Store, advances: seq<P.Advance>) {
    forall pk :: P.HarmlessTo(base, advances, RK(t, pk))
  }

  /** A leftover delete hides from the shipped check that a newer commit wrote the key. */
  ghost predicate Hidden(s: SI.State, tr: P.Track, k: Key)
    requires s.lock.Flushing? && s.lock.tid in s.txns
  {
    && P.LeftDeleted(tr, k)
    && exists i :: 0 <= i < |tr.advances| && Writes(tr.advances[i].muts, k) &&
         s.txns[s.lock.tid].readTS < tr.advances[i].ts
  }

  /** No publish of the run writes a row that is hidden so. */
  ghost predicate NothingHidden(det: Detector, t: Table, s: SI.State, tr: P.Track, op: Op) {
    det.Shipped? && op == Other(SI.Publish) && s.lock.Flushing? && s.lock.tid in s.txns ==>
      forall pk :: Writes(s.txns[s.lock.tid].muts, RK(t, pk)) ==> !Hidden(s, tr, RK(t, pk))
  }

  ghost predicate NeverHidden(det: Detector, t: Table, s: SI.State, tr: P.Track, ops: seq<Op>)
    requires TableOk(t)
    decreases |ops|
  {
    ops == [] ||
    (NothingHidden(det, t, s, tr, ops[0]) &&
     match StepOp(det, t, s, ops[0])
     case None => true
     case Some(s') => NeverHidden(det, t, s', TrackOp(s, tr, ops[0]), ops[1..]))
  }

  /** What a snapshot shows of the published commits. */
  function Seen(base: Store, advances: seq<P.Advance>, readTS: nat): seq<SI.Commit>
    requires SI.StartClock(base) <= readTS <= SI.StartClock(base) + |advances|
  {
    P.Intended(advances)[..readTS - SI.StartClock(base)]
  }

  ghost predicate AllSynced(t: Table, base: Store, advances: seq<P.Advance>)
    requires TableOk(t)
  {
    forall i :: 0 <= i <= |advances| ==> Synced(t, base, P.Intended(advances)[..i])
  }

  ghost predicate BuffersOk(t: Table, s: SI.State, tr: P.Track)
    requires TableOk(t)
  {
    forall x :: x in s.txns ==>
      && SI.StartClock(s.base) <= s.txns[x].readTS <= SI.StartClock(s.base) + |tr.advances|
      && BufferOk(t, s.base, Seen(s.base, tr.advances, s.txns[x].readTS), s.txns[x].muts)
  }

  ghost predicate FaultInv(det: Detector, t: Table, s: SI.State, tr: P.Track)
    requires TableOk(t)
  {
    P.AnyInv(det, s, tr) && AllSynced(t, s.base, tr.advances) && BuffersOk(t, s, tr)
  }

  lemma {:induction false} Assemble(det: Detector, t: Table, s: SI.State, tr: P.Track)
    requires TableOk(t) && P.AnyInv(det, s, tr) && AllSynced(t, s.base, tr.advances) && BuffersOk(t, s, tr)
    ensures FaultInv(det, t, s, tr)
  {
  }

  lemma {:induction false} ClockOf(det: Detector, s: SI.State, tr: P.Track)
    requires P.AnyInv(det, s, tr)
    ensures s.clock == SI.StartClock(s.base) + |tr.advances|
    ensures forall i :: 0 <= i < |tr.advances| ==> tr.advances[i].ts == SI.StartClock(s.base) + i + 1
  {
    hide P.HolderOk, SI.Replay, WriteAll, P.Published;
    forall i | 0 <= i < |tr.advances| ensures tr.advances[i].ts == SI.StartClock(s.base) + i + 1 {
      assert P.Actual(tr.advances)[i].ts == tr.advances[i].ts;
    }
  }

  // ---- A statement ----

  lemma {:induction false} RowRead(det: Detector, t: Table, s: SI.State, tr: P.Track, x: SI.Tid, pk: Bytes)
    requires TableOk(t) && FaultInv(det, t, s, tr) && RowsUnharmed(t, s.base, tr.advances) && x in s.txns
    ensures SI.Get(s, x, RK(t, pk)) ==
      View(s.base, Seen(s.base, tr.advances, s.txns[x].readTS), true, s.txns[x].muts, RK(t, pk))
  {
    hide P.AnyInv, P.HarmlessTo, RK, AllSynced, BufferOk, SI.SerialRead, Overlay;
    ClockOf(det, s, tr);
    P.ReadsIntended(det, s, tr, s.txns[x].readTS, RK(t, pk));
  }

  lemma {:induction false} StatementKeeps(det: Detector, t: Table, s: SI.State, tr: P.Track, op: Op)
    requires TableOk(t) && FaultInv(det, t, s, tr) && RowsUnharmed(t, s.base, tr.advances)
    requires !op.Other? && StepOp(det, t, s, op).Some?
    ensures FaultInv(det, t, StepOp(det, t, s, op).value, tr)
  {
    hide P.AnyInv, RowsUnharmed, RK, AllSynced, BufferOk, StatementMuts, View, Seen;
    var x, pk := Tid(op), TargetKey(t, op).value;
    RowRead(det, t, s, tr, x, pk);
    StatementBuffer(t, s.base, Seen(s.base, tr.advances, s.txns[x].readTS), s.txns[x].muts, op, pk);
    P.StepAnyInv(det, s, tr, SI.Buffer(x, StatementMuts(t, op, pk, SI.Get(s, x, RK(t, pk))).value));
  }

  // ---- A commit ----

  lemma {:induction false} SerialUnwritten(base: Store, h: seq<SI.Commit>, m: nat, k: Key)
    requires m <= |h| && forall i :: m <= i < |h| ==> !Writes(h[i].muts, k)
    ensures SI.SerialRead(base, h, k) == SI.SerialRead(base, h[..m], k)
    decreases |h|
  {
    hide Writes;
    if m == |h| {
      assert h[..m] == h;
    } else {
      var n := |h| - 1;
      SerialUnwritten(base, h[..n], m, k);
      assert h[..n][..m] == h[..m];
      assert !Writes(h[n].muts, k);
    }
  }

  /** A row the commit writes is as its snapshot showed it, or gone. */
  lemma {:induction false} WrittenRow(det: Detector, t: Table, s: SI.State, tr: P.Track, pk: Bytes)
    requires TableOk(t) && P.AnyInv(det, s, tr) && RowsUnharmed(t, s.base, tr.advances)
    requires s.lock.Flushing? && s.lock.tid in s.txns && Writes(s.txns[s.lock.tid].muts, RK(t, pk))
    requires det.Shipped? ==> !Hidden(s, tr, RK(t, pk))
    requires SI.StartClock(s.base) <= s.txns[s.lock.tid].readTS <= SI.StartClock(s.base) + |tr.advances|
    ensures var h := P.Intended(tr.advances);
      var seen := Seen(s.base, tr.advances, s.txns[s.lock.tid].readTS);
      SI.SerialRead(s.base, h, RK(t, pk)) == SI.SerialRead(s.base, seen, RK(t, pk)) ||
      SI.SerialRead(s.base, h, RK(t, pk)).None?
  {
    hide P.AnyInv, P.HarmlessTo, RK, SI.SerialRead, Writes, P.LeftDeleted;
    var k, ts, h := RK(t, pk), s.txns[s.lock.tid].readTS, P.Intended(tr.advances);
    ClockOf(det, s, tr);
    P.ReadsIntended(det, s, tr, ts, k);
    if det.Shipped? && P.LeftDeleted(tr, k) {
      forall i | ts - SI.StartClock(s.base) <= i < |h| ensures !Writes(h[i].muts, k) {
        assert tr.advances[i].ts > ts && h[i].muts == tr.advances[i].muts;
      }
      SerialUnwritten(s.base, h, ts - SI.StartClock(s.base), k);
    } else {
      P.AcceptedKeyUnchanged(det, s, tr, k);
    }
  }

  lemma {:induction false} AdvanceSyncs(t: Table, base: Store, advances: seq<P.Advance>, a: P.Advance,
                                        seen: seq<SI.Commit>)
    requires TableOk(t) && AllSynced(t, base, advances) && Synced(t, base, seen) && BufferOk(t, base, seen, a.muts)
    requires var h := P.Intended(advances);
      forall pk :: Writes(a.muts, RK(t, pk)) ==>
        SI.SerialRead(base, h, RK(t, pk)) == SI.SerialRead(base, seen, RK(t, pk)) ||
        SI.SerialRead(base, h, RK(t, pk)).None?
    ensures AllSynced(t, base, advances + [a])
  {
    hide Synced, BufferOk, RK, SI.SerialRead, Writes;
    var h, h' := P.Intended(advances), P.Intended(advances + [a]);
    P.ActualSnoc(advances, a);
    var c := SI.Commit(a.ts, a.readTS, a.muts);
    assert h' == h + [c] && h[..|h|] == h && h'[..|h'|] == h';
    CommitSyncs(t, base, seen, h, c);
    forall i | 0 <= i <= |advances + [a]| ensures Synced(t, base, h'[..i]) {
      if i <= |advances| { assert h'[..i] == h[..i]; }
    }
  }

  lemma {:induction false} PublishKeeps(det: Detector, t: Table, s: SI.State, tr: P.Track)
    requires TableOk(t) && FaultInv(det, t, s, tr) && RowsUnharmed(t, s.base, tr.advances)
    requires s.lock.Flushing? && s.lock.tid in s.txns && NothingHidden(det, t, s, tr, Other(SI.Publish))
    ensures AllSynced(t, s.base, P.TrackStep(s, tr, SI.Publish).advances)
  {
    hide P.AnyInv, RowsUnharmed, RK, BufferOk, Synced, SI.SerialRead, Writes, Hidden;
    var x := s.txns[s.lock.tid];
    var seen := Seen(s.base, tr.advances, x.readTS);
    forall pk | Writes(x.muts, RK(t, pk))
      ensures
        SI.SerialRead(s.base, P.Intended(tr.advances), RK(t, pk)) == SI.SerialRead(s.base, seen, RK(t, pk)) ||
        SI.SerialRead(s.base, P.Intended(tr.advances), RK(t, pk)).None?
    {
      WrittenRow(det, t, s, tr, pk);
    }
    AdvanceSyncs(t, s.base, tr.advances, P.Advance(s.lock.ts, x.readTS, tr.debris, x.muts), seen);
  }

  lemma {:induction false} ReopenKeeps(t: Table, base: Store, advances: seq<P.Advance>, a: P.Advance)
    requires TableOk(t) && AllSynced(t, base, advances) && a.muts == []
    ensures AllSynced(t, base, advances + [a])
  {
    hide Synced, BufferOk, RK, SI.SerialRead;
    var h := P.Intended(advances);
    assert h[..|h|] == h;
    EmptyBufferOk(t, base, h);
    AdvanceSyncs(t, base, advances, a, h);
  }

  lemma {:induction false} SyncedKept(det: Detector, t: Table, s: SI.State, tr: P.Track, e: SI.Event)
    requires TableOk(t) && FaultInv(det, t, s, tr) && RowsUnharmed(t, s.base, tr.advances)
    requires NothingHidden(det, t, s, tr, Other(e))
    ensures AllSynced(t, s.base, P.TrackStep(s, tr, e).advances)
  {
    hide P.AnyInv, RowsUnharmed, AllSynced, BuffersOk, NothingHidden;
    if e.Publish? && s.lock.Flushing? && s.lock.tid in s.txns {
      PublishKeeps(det, t, s, tr);
    } else if e.Reopen? && tr.debris != [] {
      ReopenKeeps(t, s.base, tr.advances, P.Advance(s.clock + 1, s.clock, tr.debris, []));
    }
  }

  lemma {:induction false} OtherTxn(det: Detector, t: Table, s: SI.State, tr: P.Track, e: SI.Event, x: SI.Tid)
    requires TableOk(t) && FaultInv(det, t, s, tr) && StepOp(det, t, s, Other(e)).Some?
    requires AllSynced(t, s.base, P.TrackStep(s, tr, e).advances) && x in SI.Step(det, s, e).value.txns
    ensures
      var s', tr' := SI.Step(det, s, e).value, P.TrackStep(s, tr, e);
      var readTS := s'.txns[x].readTS;
      && tr.advances <= tr'.advances && s'.base == s.base
      && SI.StartClock(s.base) <= readTS <= SI.StartClock(s.base) + |tr'.advances|
      && BufferOk(t, s.base, Seen(s.base, tr'.advances, readTS), s'.txns[x].muts)
  {
    hide BufferOk, Synced, P.HolderOk, SI.HistoryOk, P.Published, P.Actual, SI.Replay, WriteAll, Foreign;
    var s', tr' := SI.Step(det, s, e).value, P.TrackStep(s, tr, e);
    SI.StepHistory(det, s, e);
    SI.StepBuffers(det, s, e, x);
    var seen := Seen(s.base, tr'.advances, s'.txns[x].readTS);
    EmptyBufferOk(t, s.base, seen);
    if x in s.txns {
      assert P.Intended(tr.advances)[..s.txns[x].readTS - SI.StartClock(s.base)] == seen;
      if e.Buffer? && e.tid == x { ForeignKeepsBuffer(t, s.base, seen, s.txns[x].muts, e.muts); }
    }
  }

  lemma {:induction false} OtherKeeps(det: Detector, t: Table, s: SI.State, tr: P.Track, e: SI.Event)
    requires TableOk(t) && FaultInv(det, t, s, tr) && RowsUnharmed(t, s.base, tr.advances)
    requires StepOp(det, t, s, Other(e)).Some? && NothingHidden(det, t, s, tr, Other(e))
    ensures FaultInv(det, t, StepOp(det, t, s, Other(e)).value, P.TrackStep(s, tr, e))
  {
    OtherStep(det, t, s, e);
    var s', tr' := SI.Step(det, s, e).value, P.TrackStep(s, tr, e);
    P.StepAnyInv(det, s, tr, e);
    SyncedKept(det, t, s, tr, e);
    hide FaultInv, P.AnyInv, RowsUnharmed, BufferOk, AllSynced, Seen, SI.Step, P.TrackStep, StepOp, NothingHidden;
    forall x | x in s'.txns
      ensures SI.StartClock(s.base) <= s'.txns[x].readTS <= SI.StartClock(s.base) + |tr'.advances|
      ensures BufferOk(t, s.base, Seen(s.base, tr'.advances, s'.txns[x].readTS), s'.txns[x].muts)
    {
      OtherTxn(det, t, s, tr, e, x);
    }
    Assemble(det, t, s', tr');
  }

  // ---- Runs ----

  lemma {:induction false} OpKeeps(det: Detector, t: Table, s: SI.State, tr: P.Track, op: Op)
    requires TableOk(t) && FaultInv(det, t, s, tr) && RowsUnharmed(t, s.base, tr.advances)
    requires StepOp(det, t, s, op).Some? && NothingHidden(det, t, s, tr, op)
    ensures FaultInv(det, t, StepOp(det, t, s, op).value, TrackOp(s, tr, op))
  {
    hide FaultInv, RowsUnharmed, NothingHidden, StepOp;
    if op.Other? { OtherKeeps(det, t, s, tr, op.event); } else { StatementKeeps(det, t, s, tr, op); }
  }

  lemma {:induction false} TrackGrows(det: Detector, t: Table, s: SI.State, tr: P.Track, ops: seq<Op>)
    requires TableOk(t)
    ensures tr.advances <= TrackOps(det, t, s, tr, ops).advances
    decreases |ops|
  {
    hide StepOp, P.InFlight;
    if ops != [] && StepOp(det, t, s, ops[0]).Some? {
      TrackGrows(det, t, StepOp(det, t, s, ops[0]).value, TrackOp(s, tr, ops[0]), ops[1..]);
    }
  }

  lemma {:induction false} UnharmedPrefix(t: Table, base: Store, p: seq<P.Advance>, q: seq<P.Advance>)
    requires p <= q && RowsUnharmed(t, base, q)
    ensures RowsUnharmed(t, base, p)
  {
    hide P.HarmlessTo, RK;
    forall pk ensures P.HarmlessTo(base, p, RK(t, pk)) {
      P.HarmlessPrefix(base, p, q, RK(t, pk));
    }
  }

  lemma {:induction false} RunKeeps(det: Detector, t: Table, s: SI.State, tr: P.Track, ops: seq<Op>)
    requires TableOk(t) && FaultInv(det, t, s, tr) && RunOps(det, t, s, ops).Some?
    requires RowsUnharmed(t, s.base, TrackOps(det, t, s, tr, ops).advances) && NeverHidden(det, t, s, tr, ops)
    ensures FaultInv(det, t, RunOps(det, t, s, ops).value, TrackOps(det, t, s, tr, ops))
    ensures RunOps(det, t, s, ops).value.base == s.base
    decreases |ops|
  {
    hide FaultInv, RowsUnharmed, NothingHidden, StepOp, TrackOp;
    if ops != [] {
      TrackGrows(det, t, s, tr, ops);
      UnharmedPrefix(t, s.base, tr.advances, TrackOps(det, t, s, tr, ops).advances);
      OpKeeps(det, t, s, tr, ops[0]);
      StepOpBase(det, t, s, ops[0]);
      RunKeeps(det, t, StepOp(det, t, s, ops[0]).value, TrackOp(s, tr, ops[0]), ops[1..]);
    }
  }

  /** In every run, whatever flushes fail: while the leftovers are harmless to the table's rows, and no commit writes
      a row whose newer version a leftover delete hides from the shipped check, the published commits keep every
      index exact at every timestamp; and that is what readers see of exactly the keys the leftovers are harmless
      to. */
  lemma {:induction false} IndexExactDespiteFailures(det: Detector, t: Table, base: Store, ops: seq<Op>)
    requires TableOk(t) && WellFormed(base) && Synced(t, base, []) && RunOps(det, t, SI.Start(base), ops).Some?
    requires
      var start := P.Track([], []);
      && RowsUnharmed(t, base, TrackOps(det, t, SI.Start(base), start, ops).advances)
      && NeverHidden(det, t, SI.Start(base), start, ops)
    ensures
      var s := RunOps(det, t, SI.Start(base), ops).value;
      var end := TrackOps(det, t, SI.Start(base), P.Track([], []), ops).advances;
      && s.clock == SI.StartClock(base) + |end|
      && s.base == base
      && (forall ts :: SI.StartClock(base) <= ts <= s.clock ==> IndexExact(t, base, Seen(base, end, ts)))
      && (forall k :: P.ReadsPublished(s, end, k) <==> P.HarmlessTo(base, end, k))
  {
    hide P.HarmlessTo, P.ReadsPublished, RowsUnharmed, NeverHidden, RunOps, TrackOps, IndexExact, Synced, SI.SerialRead;
    StartKeeps(det, t, base);
    RunKeeps(det, t, SI.Start(base), P.Track([], []), ops);
    var s := RunOps(det, t, SI.Start(base), ops).value;
    var tr := TrackOps(det, t, SI.Start(base), P.Track([], []), ops);
    ClockOf(det, s, tr);
    forall ts | SI.StartClock(base) <= ts <= s.clock ensures IndexExact(t, base, Seen(base, tr.advances, ts)) {
      SyncedIsExact(t, base, Seen(base, tr.advances, ts));
    }
    forall k ensures P.ReadsPublished(s, tr.advances, k) <==> P.HarmlessTo(base, tr.advances, k) {
      P.ReadsPublishedIff(det, s, tr, k);
    }
  }

  lemma {:induction false} StartKeeps(det: Detector, t: Table, base: Store)
    requires TableOk(t) && WellFormed(base) && Synced(t, base, [])
    ensures FaultInv(det, t, SI.Start(base), P.Track([], []))
  {
    hide Synced;
    P.StartAnyInv(det, base);
    assert P.Intended([])[..0] == [];
  }
}
