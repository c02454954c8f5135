/** Sequences when flushes fail part-way (engine/internal/executor/defaults.go over
    engine/internal/transactions/engine.go): the leftovers of a failed flush may hold counter values nobody was
    handed. Exactly when the committed values stay gap-free all the same. */
module SequenceFaults {
  import opened Bytes
  import opened Versions
  import opened Sequences
  import P = PartialFlush
  import SI = SnapshotIsolation

  /** Bookkeeping beside a client step. */
  function TrackOp(s: SI.State, tr: P.Track, op: Op): P.Track {
    if op.Other? then P.TrackStep(s, tr, op.event) else tr
  }

  function TrackOps(det: Detector, key: Key, s: SI.State, tr: P.Track, ops: seq<Op>): P.Track
    decreases |ops|
  {
    if ops == [] then tr
    else match StepOp(det, key, s, ops[0])
      case None => tr
      case Some(s') => TrackOps(det, key, s', TrackOp(s, tr, ops[0]), ops[1..])
  }

  /** How many values had been committed when the snapshot was taken. */
  function Seen(key: Key, base: Store, advances: seq<P.Advance>, readTS: nat): nat
    requires SI.StartClock(base) <= readTS <= SI.StartClock(base) + |advances|
  {
    |CommittedValues(key, P.Intended(advances)[..readTS - SI.StartClock(base)])|
  }

  /** After every advance the published commits alone have counted without a gap. */
  ghost predicate Counts(key: Key, base: Store, advances: seq<P.Advance>) {
    forall i :: 0 <= i <= |advances| ==> CountsAt(key, base, P.Intended(advances)[..i])
  }

  /** Nothing left over deletes the counter. */
  ghost predicate PutsOnly(key: Key, muts: seq<Mutation>) {
    forall i :: 0 <= i < |muts| && muts[i].key == key ==> !muts[i].delete
  }

  ghost predicate FaultInv(det: Detector, key: Key, s: SI.State, tr: P.Track) {
    && P.AnyInv(det, s, tr) && Counts(key, s.base, tr.advances) && PutsOnly(key, tr.debris)
    && BuffersOk(key, s, tr)
  }

  ghost predicate BuffersOk(key: Key, s: SI.State, tr: P.Track) {
    forall t :: t in s.txns ==>
      && SI.StartClock(s.base) <= s.txns[t].readTS <= SI.StartClock(s.base) + |tr.advances|
      && BufferOk(key, s.txns[t].muts, Seen(key, s.base, tr.advances, s.txns[t].readTS))
  }

  /** The next value a transaction is handed follows what its snapshot had committed and what it took itself. */
  lemma {:induction false} CurrentFollows(det: Detector, key: Key, s: SI.State, tr: P.Track, t: SI.Tid)
    requires FaultInv(det, key, s, tr) && P.HarmlessTo(s.base, tr.advances, key) && t in s.txns
    ensures var seen := Seen(key, s.base, tr.advances, s.txns[t].readTS);
      && Current(s, t, key) == seen + |Allocated(key, s.txns[t].muts)|
      && ReadAt(s.store.versions, key, s.txns[t].readTS) == CounterValue(seen)
  {
    hide P.AnyInv, P.HarmlessTo, Allocated, CommittedValues, SI.SerialRead, Overlay, Counting;
    var ts := s.txns[t].readTS;
    ClockOf(det, s, tr);
    P.ReadsIntended(det, s, tr, ts, key);
    assert CountsAt(key, s.base, P.Intended(tr.advances)[..ts - SI.StartClock(s.base)]);
    var n := Seen(key, s.base, tr.advances, ts) + |Allocated(key, s.txns[t].muts)|;
    Decimal.FormatRoundTrip(n);
  }

  lemma {:induction false} ClockOf(det: Detector, s: SI.State, tr: P.Track)
    requires P.AnyInv(det, s, tr)
    ensures s.clock == SI.StartClock(s.base) + |tr.advances| && s.history == P.Published(tr.advances)
  {
  }

  lemma {:induction false} PutsRead(key: Key, muts: seq<Mutation>)
    requires PutsOnly(key, muts) && Writes(muts, key)
    ensures Overlay(muts, key, None).Some?
  {
    LastWriteIsWrite(muts, key);
  }

  /** An accepted writer of the counter saw every committed value. */
  lemma {:induction false} PublisherSaw(det: Detector, key: Key, s: SI.State, tr: P.Track)
    requires FaultInv(det, key, s, tr) && P.HarmlessTo(s.base, tr.advances, key)
    requires s.lock.Flushing? && s.lock.tid in s.txns && Writes(s.txns[s.lock.tid].muts, key)
    ensures Seen(key, s.base, tr.advances, s.txns[s.lock.tid].readTS) ==
      |CommittedValues(key, P.Intended(tr.advances))|
  {
    hide P.AnyInv, P.HarmlessTo, CommittedValues, SI.SerialRead, Overlay, Counting, BufferOk;
    var x := s.txns[s.lock.tid];
    var h := P.Intended(tr.advances);
    if Writes(tr.debris, key) { PutsRead(key, tr.debris); }
    P.AcceptedKeyUnchanged(det, s, tr, key);
    CurrentFollows(det, key, s, tr, s.lock.tid);
    assert h[..|h|] == h;
    assert CountsAt(key, s.base, h[..|h|]);
    CountMonotone(key, h, x.readTS - SI.StartClock(s.base));
    if SI.SerialRead(s.base, h, key).Some? {
      FormatInjective(Seen(key, s.base, tr.advances, x.readTS), |CommittedValues(key, h)|);
    }
  }

  // ---- Steps ----

  /** One more advance whose commit continues the count, or does not touch the counter. */
  lemma {:induction false} AdvanceCounts(key: Key, base: Store, advances: seq<P.Advance>, a: P.Advance, seen: nat)
    requires Counts(key, base, advances) && BufferOk(key, a.muts, seen)
    requires Writes(a.muts, key) ==> seen == |CommittedValues(key, P.Intended(advances))|
    ensures Counts(key, base, advances + [a])
  {
    hide CountsAt, BufferOk, CommittedValues;
    var h, h' := P.Intended(advances), P.Intended(advances + [a]);
    P.ActualSnoc(advances, a);
    var c := SI.Commit(a.ts, a.readTS, a.muts);
    assert h' == h + [c] && h[..|h|] == h && h'[..|h'|] == h';
    CommitCounts(key, base, h, c, seen);
    forall i | 0 <= i <= |advances + [a]| ensures CountsAt(key, base, h'[..i]) {
      if i <= |advances| { assert h'[..i] == h[..i]; }
    }
  }

  lemma {:induction false} SeenStays(key: Key, base: Store, p: seq<P.Advance>, q: seq<P.Advance>, readTS: nat)
    requires p <= q && SI.StartClock(base) <= readTS <= SI.StartClock(base) + |p|
    ensures Seen(key, base, q, readTS) == Seen(key, base, p, readTS)
  {
    hide CommittedValues;
    var n := readTS - SI.StartClock(base);
    assert P.Intended(p)[..n] == P.Intended(q)[..n];
  }

  lemma {:induction false} AllocKeeps(det: Detector, key: Key, s: SI.State, tr: P.Track, t: SI.Tid)
    requires FaultInv(det, key, s, tr) && P.HarmlessTo(s.base, tr.advances, key)
    requires StepOp(det, key, s, Alloc(t)).Some?
    ensures FaultInv(det, key, StepOp(det, key, s, Alloc(t)).value, tr)
  {
    hide P.AnyInv, P.HarmlessTo, BufferOk, Counts, Seen, Allocated;
    var m := CounterWrite(key, Current(s, t, key) + 1);
    P.StepAnyInv(det, s, tr, SI.Buffer(t, [m]));
    CurrentFollows(det, key, s, tr, t);
    BufferAlloc(key, s.txns[t].muts, Seen(key, s.base, tr.advances, s.txns[t].readTS));
  }

  lemma {:induction false} OtherTxn(det: Detector, key: Key, s: SI.State, tr: P.Track, e: SI.Event, t: SI.Tid)
    requires FaultInv(det, key, s, tr) && StepOp(det, key, s, Other(e)).Some?
    requires t in SI.Step(det, s, e).value.txns
    ensures
      var s', tr' := SI.Step(det, s, e).value, P.TrackStep(s, tr, e);
      var readTS := s'.txns[t].readTS;
      && tr.advances <= tr'.advances && s'.base == s.base
      && SI.StartClock(s.base) <= readTS <= SI.StartClock(s.base) + |tr'.advances|
      && BufferOk(key, s'.txns[t].muts, Seen(key, s.base, tr'.advances, readTS))
  {
    hide BufferOk, Seen, Counts, P.HolderOk, SI.HistoryOk, P.Published, P.Actual, SI.Replay, WriteAll;
    var s', tr' := SI.Step(det, s, e).value, P.TrackStep(s, tr, e);
    SI.StepHistory(det, s, e);
    SI.StepBuffers(det, s, e, t);
    if t !in s.txns {
      EmptyBuffer(key, Seen(key, s.base, tr'.advances, s'.txns[t].readTS));
    } else {
      var seen := Seen(key, s.base, tr.advances, s.txns[t].readTS);
      SeenStays(key, s.base, tr.advances, tr'.advances, s.txns[t].readTS);
      EmptyBuffer(key, seen);
      if e.Buffer? && e.tid == t { BufferOther(key, s.txns[t].muts, e.muts, seen); }
    }
  }

  lemma {:induction false} InFlightPuts(det: Detector, key: Key, s: SI.State, tr: P.Track)
    requires FaultInv(det, key, s, tr)
    ensures PutsOnly(key, tr.debris + P.InFlight(s))
  {
    hide P.AnyInv, Allocated, Counting, Overlay;
  }

  /** The debris after a step holds no delete of the counter. */
  lemma {:induction false} DebrisKeeps(det: Detector, key: Key, s: SI.State, tr: P.Track, e: SI.Event)
    requires FaultInv(det, key, s, tr)
    ensures PutsOnly(key, P.TrackStep(s, tr, e).debris)
  {
    hide P.AnyInv, Counts, BuffersOk, P.InFlight;
    InFlightPuts(det, key, s, tr);
  }

  /** A step advances the clock by at most one. */
  lemma {:induction false} StepAdvances(s: SI.State, tr: P.Track, e: SI.Event)
    ensures var after := P.TrackStep(s, tr, e).advances;
      after == tr.advances || after == tr.advances + [after[|after| - 1]]
  {
  }

  lemma {:induction false} CountsKept(det: Detector, key: Key, s: SI.State, tr: P.Track, e: SI.Event)
    requires FaultInv(det, key, s, tr) && P.HarmlessTo(s.base, tr.advances, key) && SI.Step(det, s, e).Some?
    ensures Counts(key, s.base, P.TrackStep(s, tr, e).advances)
  {
    hide P.AnyInv, P.HarmlessTo, BufferOk, Counts, Seen;
    if e.Publish? && s.lock.Flushing? && s.lock.tid in s.txns {
      var x := s.txns[s.lock.tid];
      if Writes(x.muts, key) { PublisherSaw(det, key, s, tr); }
      AdvanceCounts(key, s.base, tr.advances, P.Advance(s.lock.ts, x.readTS, tr.debris, x.muts),
                    Seen(key, s.base, tr.advances, x.readTS));
    } else if e.Reopen? && tr.debris != [] {
      EmptyBuffer(key, 0);
      AdvanceCounts(key, s.base, tr.advances, P.Advance(s.clock + 1, s.clock, tr.debris, []), 0);
    }
  }

  lemma {:induction false} OtherKeeps(det: Detector, key: Key, s: SI.State, tr: P.Track, e: SI.Event)
    requires FaultInv(det, key, s, tr) && P.HarmlessTo(s.base, tr.advances, key)
    requires StepOp(det, key, s, Other(e)).Some?
    ensures FaultInv(det, key, SI.Step(det, s, e).value, P.TrackStep(s, tr, e))
    ensures SI.Step(det, s, e).value.base == s.base
  {
    var s', tr' := SI.Step(det, s, e).value, P.TrackStep(s, tr, e);
    P.StepAnyInv(det, s, tr, e);
    CountsKept(det, key, s, tr, e);
    DebrisKeeps(det, key, s, tr, e);
    hide FaultInv, P.AnyInv, P.HarmlessTo, BufferOk, Counts, Seen, SI.Step, P.TrackStep;
    forall t | t in s'.txns
      ensures SI.StartClock(s.base) <= s'.txns[t].readTS <= SI.StartClock(s.base) + |tr'.advances|
      ensures BufferOk(key, s'.txns[t].muts, Seen(key, s.base, tr'.advances, s'.txns[t].readTS))
    {
      OtherTxn(det, key, s, tr, e, t);
    }
    Assemble(det, key, s', tr');
  }

  lemma {:induction false} Assemble(det: Detector, key: Key, s: SI.State, tr: P.Track)
    requires P.AnyInv(det, s, tr) && Counts(key, s.base, tr.advances) && PutsOnly(key, tr.debris)
    requires BuffersOk(key, s, tr)
    ensures FaultInv(det, key, s, tr)
  {
  }

  // ---- Runs ----

  /** The stored counter is the number of committed values, and those are 1, 2, ..., after the first `i` advances. */
  ghost predicate InStepAt(key: Key, base: Store, advances: seq<P.Advance>, i: nat)
    requires i <= |advances|
  {
    var committed := CommittedValues(key, P.Intended(advances)[..i]);
    && committed == Counting(0, |committed|)
    && SI.SerialRead(base, P.Actual(advances)[..i], key) == CounterValue(|committed|)
  }

  ghost predicate InStep(key: Key, base: Store, advances: seq<P.Advance>) {
    forall i :: 0 <= i <= |advances| ==> InStepAt(key, base, advances, i)
  }

  lemma {:induction false} InStepPrefix(key: Key, base: Store, p: seq<P.Advance>, q: seq<P.Advance>)
    requires p <= q && InStep(key, base, q)
    ensures InStep(key, base, p)
  {
    hide CommittedValues, SI.SerialRead, Counting;
    forall i | 0 <= i <= |p| ensures InStepAt(key, base, p, i) {
      assert InStepAt(key, base, q, i);
      assert P.Intended(p)[..i] == P.Intended(q)[..i] && P.Actual(p)[..i] == P.Actual(q)[..i];
    }
  }

  lemma {:induction false} HarmlessInStep(key: Key, base: Store, advances: seq<P.Advance>)
    requires Counts(key, base, advances) && P.HarmlessTo(base, advances, key)
    ensures InStep(key, base, advances)
  {
    hide CommittedValues, SI.SerialRead, Counting, P.HarmlessAt;
    P.SameAtIff(base, advances, |advances|, key);
    forall i | 0 <= i <= |advances| ensures InStepAt(key, base, advances, i) {
      assert P.SameAt(base, advances, i, key) && CountsAt(key, base, P.Intended(advances)[..i]);
    }
  }

  /** The first advance over harmful leftovers makes the counter skip. */
  lemma {:induction false} HarmfulOutOfStep(key: Key, base: Store, p: seq<P.Advance>, a: P.Advance)
    requires Counts(key, base, p) && P.HarmlessTo(base, p, key) && !P.HarmlessTo(base, p + [a], key)
    ensures !InStep(key, base, p + [a])
  {
    hide CommittedValues, SI.SerialRead, Counting, Overlay, BufferOk, Writes, P.Actual;
    var q, n := p + [a], |p|;
    forall i | 0 <= i < n ensures P.HarmlessAt(base, q, i, key) {
      assert P.Intended(p)[..i] == P.Intended(q)[..i] && p[i] == q[i];
      assert P.HarmlessAt(base, p, i, key);
    }
    assert !P.HarmlessAt(base, q, n, key);
    P.SameAtIff(base, q, n, key);
    assert P.SameAt(base, q, n, key);
    P.SameAfterIff(base, q, n, key);
    EmptyBuffer(key, 0);
    BufferOther(key, [], a.muts, 0);
    assert [] + a.muts == a.muts;
    AdvanceCounts(key, base, p, a, 0);
    assert CountsAt(key, base, P.Intended(q)[..n + 1]);
    assert !InStepAt(key, base, q, n + 1);
  }

  lemma {:induction false} TrackGrows(det: Detector, key: Key, s: SI.State, tr: P.Track, ops: seq<Op>)
    ensures tr.advances <= TrackOps(det, key, s, tr, ops).advances
    decreases |ops|
  {
    hide SI.Step, P.InFlight;
    if ops != [] && StepOp(det, key, s, ops[0]).Some? {
      TrackGrows(det, key, StepOp(det, key, s, ops[0]).value, TrackOp(s, tr, ops[0]), ops[1..]);
    }
  }

  lemma {:induction false} OpKeeps(det: Detector, key: Key, s: SI.State, tr: P.Track, op: Op)
    requires FaultInv(det, key, s, tr) && P.HarmlessTo(s.base, tr.advances, key) && StepOp(det, key, s, op).Some?
    ensures FaultInv(det, key, StepOp(det, key, s, op).value, TrackOp(s, tr, op))
    ensures StepOp(det, key, s, op).value.base == s.base
  {
    hide FaultInv, P.HarmlessTo;
    match op
    case Alloc(t) => AllocKeeps(det, key, s, tr, t);
    case Other(e) => OtherKeeps(det, key, s, tr, e);
  }

  lemma {:induction false} RunInStepIff(det: Detector, key: Key, s: SI.State, tr: P.Track, ops: seq<Op>)
    requires FaultInv(det, key, s, tr) && P.HarmlessTo(s.base, tr.advances, key) && RunOps(det, key, s, ops).Some?
    ensures var end := TrackOps(det, key, s, tr, ops).advances;
      && (InStep(key, s.base, end) <==> P.HarmlessTo(s.base, end, key))
      && (P.HarmlessTo(s.base, end, key) ==>
            FaultInv(det, key, RunOps(det, key, s, ops).value, TrackOps(det, key, s, tr, ops)))
    decreases |ops|
  {
    hide FaultInv, P.HarmlessTo, InStep, StepOp, TrackOp, Counts;
    if ops == [] {
      CountsOf(det, key, s, tr);
      HarmlessInStep(key, s.base, tr.advances);
    } else {
      var s', tr' := StepOp(det, key, s, ops[0]).value, TrackOp(s, tr, ops[0]);
      OpKeeps(det, key, s, tr, ops[0]);
      if P.HarmlessTo(s.base, tr'.advances, key) {
        RunInStepIff(det, key, s', tr', ops[1..]);
      } else {
        Skipped(det, key, s, tr, ops);
      }
    }
  }

  lemma {:induction false} RunKeepsBase(det: Detector, key: Key, s: SI.State, ops: seq<Op>)
    requires RunOps(det, key, s, ops).Some?
    ensures RunOps(det, key, s, ops).value.base == s.base
    decreases |ops|
  {
    if ops != [] { RunKeepsBase(det, key, StepOp(det, key, s, ops[0]).value, ops[1..]); }
  }

  lemma {:induction false} CountsOf(det: Detector, key: Key, s: SI.State, tr: P.Track)
    requires FaultInv(det, key, s, tr)
    ensures Counts(key, s.base, tr.advances)
  {
  }

  /** Once the counter has skipped it stays so. */
  lemma {:induction false} Skipped(det: Detector, key: Key, s: SI.State, tr: P.Track, ops: seq<Op>)
    requires FaultInv(det, key, s, tr) && P.HarmlessTo(s.base, tr.advances, key)
    requires ops != [] && StepOp(det, key, s, ops[0]).Some?
    requires !P.HarmlessTo(s.base, TrackOp(s, tr, ops[0]).advances, key)
    ensures var end := TrackOps(det, key, s, tr, ops).advances;
      !InStep(key, s.base, end) && !P.HarmlessTo(s.base, end, key)
  {
    hide FaultInv, P.HarmlessTo, InStep, StepOp, P.TrackStep;
    var end := TrackOps(det, key, s, tr, ops).advances;
    var now := TrackOp(s, tr, ops[0]).advances;
    if ops[0].Other? { StepAdvances(s, tr, ops[0].event); }
    CountsOf(det, key, s, tr);
    HarmfulOutOfStep(key, s.base, tr.advances, now[|now| - 1]);
    TrackGrows(det, key, StepOp(det, key, s, ops[0]).value, TrackOp(s, tr, ops[0]), ops[1..]);
    if InStep(key, s.base, end) { InStepPrefix(key, s.base, now, end); }
    if P.HarmlessTo(s.base, end, key) { P.HarmlessPrefix(s.base, now, end, key); }
  }

  lemma {:induction false} StartFaultInv(det: Detector, key: Key, base: Store)
    requires WellFormed(base) && forall ts :: (key, ts) !in base.versions
    ensures FaultInv(det, key, SI.Start(base), P.Track([], [])) && P.HarmlessTo(base, [], key)
  {
    P.StartAnyInv(det, base);
    ReadUnwritten(base.versions, key, SI.StartClock(base));
    assert P.Intended([])[..0] == [];
  }

  /** The values of the published commits, reopenings left out. */
  lemma {:induction false} PublishedValues(key: Key, advances: seq<P.Advance>)
    ensures CommittedValues(key, P.Published(advances)) == CommittedValues(key, P.Intended(advances))
  {
    if advances != [] {
      var n := |advances| - 1;
      var a := advances[n];
      var c := SI.Commit(a.ts, a.readTS, a.muts);
      var p := P.Published(advances[..n]);
      PublishedValues(key, advances[..n]);
      hide CommittedValues, P.Intended, P.Published;
      assert advances == advances[..n] + [a];
      P.ActualSnoc(advances[..n], a);
      CommittedSnoc(key, P.Intended(advances[..n]), c);
      CommittedSnoc(key, p, c);
      assert p + [] == p && (a.muts == [] ==> CommittedValues(key, p) + Allocated(key, []) == CommittedValues(key, p));
    }
  }

  lemma {:induction false} CommittedSnoc(key: Key, h: seq<SI.Commit>, c: SI.Commit)
    ensures CommittedValues(key, h + [c]) == CommittedValues(key, h) + Allocated(key, c.muts)
  {
    assert (h + [c])[..|h|] == h;
  }

  /** In every run, whatever flushes fail: the stored counter is the number of values committed at every point, if
      and only if the leftovers under every advance of the clock are harmless to the counter. The committed values
      are then 1, 2, ..., n. */
  lemma {:induction false} GapFreeIff(det: Detector, key: Key, base: Store, ops: seq<Op>)
    requires WellFormed(base) && forall ts :: (key, ts) !in base.versions
    requires RunOps(det, key, SI.Start(base), ops).Some?
    ensures
      var s := RunOps(det, key, SI.Start(base), ops).value;
      var end := TrackOps(det, key, SI.Start(base), P.Track([], []), ops).advances;
      && (InStep(key, base, end) <==> P.HarmlessTo(base, end, key))
      && (P.HarmlessTo(base, end, key) ==>
            CommittedValues(key, s.history) == Counting(0, |CommittedValues(key, s.history)|))
  {
    hide FaultInv, P.HarmlessTo, InStepAt, RunOps, TrackOps, CommittedValues;
    StartFaultInv(det, key, base);
    RunInStepIff(det, key, SI.Start(base), P.Track([], []), ops);
    RunKeepsBase(det, key, SI.Start(base), ops);
    var end := TrackOps(det, key, SI.Start(base), P.Track([], []), ops);
    if P.HarmlessTo(base, end.advances, key) {
      assert InStepAt(key, base, end.advances, |end.advances|);
      EndValues(det, key, RunOps(det, key, SI.Start(base), ops).value, end);
    }
  }

  lemma {:induction false} EndValues(det: Detector, key: Key, s: SI.State, tr: P.Track)
    requires FaultInv(det, key, s, tr) && InStepAt(key, s.base, tr.advances, |tr.advances|)
    ensures CommittedValues(key, s.history) == Counting(0, |CommittedValues(key, s.history)|)
  {
    hide P.AnyInv, CommittedValues, Counting;
    ClockOf(det, s, tr);
    PublishedValues(key, tr.advances);
    assert P.Intended(tr.advances)[..|tr.advances|] == P.Intended(tr.advances);
  }
}
