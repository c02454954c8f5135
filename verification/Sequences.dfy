/** `nextSequenceVal` (engine/internal/executor/defaults.go) run by any number of interleaved
    transactions: the counter is an ordinary key, so first-committer-wins is what makes the
    committed values gap-free. */
module Sequences {
  import opened Bytes
  import opened Versions
  import opened Decimal
  import SI = SnapshotIsolation

  /** One client step: allocate the next value, or anything that leaves the counter key alone. */
  datatype Op = Alloc(tid: SI.Tid) | Other(event: SI.Event)

  /** The value the transaction reads from the counter: 0 when the key is absent. */
  function Current(s: SI.State, t: SI.Tid, key: Key): nat
    requires t in s.txns
  {
    match SI.Get(s, t, key) { case Some(v) => Parse(v) case None => 0 }
  }

  function CounterWrite(key: Key, n: nat): Mutation {
    Mutation(key, Format(n), false)
  }

  function StepOp(det: Detector, key: Key, s: SI.State, op: Op): Option<SI.State> {
    match op
    case Alloc(t) =>
      if t !in s.txns || s.txns[t].done then None
      else SI.Step(det, s, SI.Buffer(t, [CounterWrite(key, Current(s, t, key) + 1)]))
    case Other(e) =>
      if e.Buffer? && Writes(e.muts, key) then None else SI.Step(det, s, e)
  }

  function RunOps(det: Detector, key: Key, s: SI.State, ops: seq<Op>): Option<SI.State>
    decreases |ops|
  {
    if ops == [] then Some(s)
    else match StepOp(det, key, s, ops[0]) { case None => None case Some(s') => RunOps(det, key, s', ops[1..]) }
  }

  /** Flushes that fail leave nothing durable, as in `SnapshotIsolation.CleanRun`. */
  ghost predicate CleanOps(det: Detector, key: Key, s: SI.State, ops: seq<Op>)
    decreases |ops|
  {
    ops == [] ||
    ((ops[0].Other? ==> SI.CleanStep(s, ops[0].event)) &&
     match StepOp(det, key, s, ops[0]) { case None => true case Some(s') => CleanOps(det, key, s', ops[1..]) })
  }

  /** The values a transaction was handed, in order: each allocation buffered one. */
  function Allocated(key: Key, muts: seq<Mutation>): seq<nat>
    decreases |muts|
  {
    if muts == [] then []
    else
      var n := |muts| - 1;
      Allocated(key, muts[..n]) + if muts[n].key == key then [Parse(muts[n].value)] else []
  }

  /** The values handed out by committed transactions, in commit order. */
  function CommittedValues(key: Key, h: seq<SI.Commit>): seq<nat>
    decreases |h|
  {
    if h == [] then [] else CommittedValues(key, h[..|h| - 1]) + Allocated(key, h[|h| - 1].muts)
  }

  /** from + 1, ..., from + n */
  function Counting(from: nat, n: nat): (r: seq<nat>)
    ensures |r| == n && forall i :: 0 <= i < n ==> r[i] == from + i + 1
  {
    if n == 0 then [] else Counting(from, n - 1) + [from + n]
  }

  // ---- The invariant ----

  function CounterValue(n: nat): Option<Bytes> {
    if n == 0 then None else Some(Format(n))
  }

  /** A transaction that saw the counter at `from` was handed from+1, from+2, ... and buffers
      exactly those counter writes. */
  ghost predicate BufferOk(key: Key, muts: seq<Mutation>, from: nat) {
    && (forall i :: 0 <= i < |muts| && muts[i].key == key ==> !muts[i].delete && AllDigits(muts[i].value))
    && Allocated(key, muts) == Counting(from, |Allocated(key, muts)|)
    && Overlay(muts, key, CounterValue(from)) == CounterValue(from + |Allocated(key, muts)|)
  }

  ghost predicate HistoryCounts(key: Key, base: Store, h: seq<SI.Commit>) {
    forall i :: 0 <= i <= |h| ==>
      && CommittedValues(key, h[..i]) == Counting(0, |CommittedValues(key, h[..i])|)
      && SI.SerialRead(base, h[..i], key) == CounterValue(|CommittedValues(key, h[..i])|)
  }

  /** How many values were committed when the snapshot was taken. */
  function SeenCount(key: Key, s: SI.State, t: SI.Tid): nat
    requires t in s.txns && SI.StartClock(s.base) <= s.txns[t].readTS
    requires SI.SnapshotLength(s, s.txns[t].readTS) <= |s.history|
  {
    |CommittedValues(key, s.history[..SI.SnapshotLength(s, s.txns[t].readTS)])|
  }

  ghost predicate CounterInv(det: Detector, key: Key, s: SI.State) {
    && SI.Inv(det, s)
    && HistoryCounts(key, s.base, s.history)
    && forall t :: t in s.txns ==> BufferOk(key, s.txns[t].muts, SeenCount(key, s, t))
  }

  lemma {:induction false} AllocatedSnoc(key: Key, muts: seq<Mutation>, m: Mutation)
    ensures Allocated(key, muts + [m]) == Allocated(key, muts) + if m.key == key then [Parse(m.value)] else []
  {
    assert (muts + [m])[..|muts|] == muts;
  }

  lemma {:induction false} UnrelatedAppend(key: Key, muts: seq<Mutation>, ms: seq<Mutation>, below: Option<Bytes>)
    requires !Writes(ms, key)
    ensures Allocated(key, muts + ms) == Allocated(key, muts)
    ensures Overlay(muts + ms, key, below) == Overlay(muts, key, below)
    decreases |ms|
  {
    hide Allocated, Overlay, Writes;
    if ms == [] {
      assert muts + ms == muts;
    } else {
      var n := |ms| - 1;
      WritesSnoc(ms, key);
      UnrelatedAppend(key, muts, ms[..n], below);
      assert muts + ms == (muts + ms[..n]) + [ms[n]];
      AllocatedSnoc(key, muts + ms[..n], ms[n]);
      OverlaySnoc(muts + ms[..n], ms[n], key, below);
    }
  }

  lemma {:induction false} CountingJoins(from: nat, m: nat, n: nat)
    ensures Counting(from, m) + Counting(from + m, n) == Counting(from, m + n)
  {
  }

  /** The value handed out is one more than the snapshot count plus the transaction's own. */
  lemma {:induction false} CurrentIsCount(det: Detector, key: Key, s: SI.State, t: SI.Tid)
    requires CounterInv(det, key, s) && t in s.txns
    ensures Current(s, t, key) == SeenCount(key, s, t) + |Allocated(key, s.txns[t].muts)|
    ensures ReadAt(s.store.versions, key, s.txns[t].readTS) == CounterValue(SeenCount(key, s, t))
  {
    SI.SnapshotIsPrefix(det, s, s.txns[t].readTS, key);
    var n := SeenCount(key, s, t) + |Allocated(key, s.txns[t].muts)|;
    FormatRoundTrip(n);
  }

  lemma {:induction false} BufferAlloc(key: Key, muts: seq<Mutation>, from: nat)
    requires BufferOk(key, muts, from)
    ensures BufferOk(key, muts + [CounterWrite(key, from + |Allocated(key, muts)| + 1)], from)
  {
    hide Allocated, Overlay, Format, Value;
    var n := |Allocated(key, muts)|;
    var m := CounterWrite(key, from + n + 1);
    AllocatedSnoc(key, muts, m);
    OverlaySnoc(muts, m, key, CounterValue(from));
    FormatRoundTrip(from + n + 1);
  }

  lemma {:induction false} BufferOther(key: Key, muts: seq<Mutation>, ms: seq<Mutation>, from: nat)
    requires BufferOk(key, muts, from) && !Writes(ms, key)
    ensures BufferOk(key, muts + ms, from)
  {
    UnrelatedAppend(key, muts, ms, CounterValue(from));
    assert forall j :: 0 <= j < |ms| ==> ms[j].key != key;
  }

  lemma {:induction false} EmptyBuffer(key: Key, from: nat)
    ensures BufferOk(key, [], from)
  {
  }

  lemma {:induction false} NoAllocation(key: Key, muts: seq<Mutation>)
    ensures Allocated(key, muts) != [] ==> Writes(muts, key)
    decreases |muts|
  {
    if muts != [] {
      WritesSnoc(muts, key);
      NoAllocation(key, muts[..|muts| - 1]);
    }
  }

  lemma {:induction false} FormatInjective(m: nat, n: nat)
    requires CounterValue(m) == CounterValue(n)
    ensures m == n
  {
    FormatRoundTrip(m);
    FormatRoundTrip(n);
  }

  lemma {:induction false} CountMonotone(key: Key, h: seq<SI.Commit>, n: nat)
    requires n <= |h|
    ensures |CommittedValues(key, h[..n])| <= |CommittedValues(key, h)|
    decreases |h|
  {
    if n == |h| {
      assert h[..n] == h;
    } else {
      CountMonotone(key, h[..|h| - 1], n);
      assert h[..|h| - 1][..n] == h[..n];
    }
  }

  /** An accepted writer of the counter saw every committed value. */
  lemma {:induction false} PublisherSawAll(det: Detector, key: Key, s: SI.State)
    requires CounterInv(det, key, s) && s.lock.Flushing? && Writes(s.txns[s.lock.tid].muts, key)
    ensures SeenCount(key, s, s.lock.tid) == |CommittedValues(key, s.history)|
  {
    var t := s.lock.tid;
    SI.WrittenKeyUnchanged(det, s, key);
    CurrentIsCount(det, key, s, t);
    assert s.history[..|s.history|] == s.history;
    CountMonotone(key, s.history, SI.SnapshotLength(s, s.txns[t].readTS));
    if SI.SerialRead(s.base, s.history, key).Some? {
      FormatInjective(SeenCount(key, s, t), |CommittedValues(key, s.history)|);
    }
  }

  ghost predicate CountsAt(key: Key, base: Store, h: seq<SI.Commit>) {
    && CommittedValues(key, h) == Counting(0, |CommittedValues(key, h)|)
    && SI.SerialRead(base, h, key) == CounterValue(|CommittedValues(key, h)|)
  }

  /** A commit whose buffer continues the current count continues the committed values. */
  lemma {:induction false} CommitCounts(key: Key, base: Store, h: seq<SI.Commit>, c: SI.Commit, seen: nat)
    requires CountsAt(key, base, h) && BufferOk(key, c.muts, seen)
    requires Writes(c.muts, key) ==> seen == |CommittedValues(key, h)|
    ensures CountsAt(key, base, h + [c])
  {
    var h' := h + [c];
    assert h'[..|h|] == h;
    var before, more := |CommittedValues(key, h)|, Allocated(key, c.muts);
    CountingJoins(0, before, |more|);
    if Writes(c.muts, key) {
      assert Overlay(c.muts, key, CounterValue(before)) == CounterValue(before + |more|);
    } else {
      NoAllocation(key, c.muts);
    }
  }

  lemma {:induction false} PublishTotals(det: Detector, key: Key, s: SI.State)
    requires CounterInv(det, key, s) && SI.Step(det, s, SI.Publish).Some?
    ensures CountsAt(key, s.base, SI.Step(det, s, SI.Publish).value.history)
  {
    PublishAppends(det, s);
    var x := s.txns[s.lock.tid];
    assert s.history[..|s.history|] == s.history;
    assert CountsAt(key, s.base, s.history);
    if Writes(x.muts, key) { PublisherSawAll(det, key, s); }
    CommitCounts(key, s.base, s.history, SI.Commit(s.lock.ts, x.readTS, x.muts), SeenCount(key, s, s.lock.tid));
  }

  lemma {:induction false} PublishAppends(det: Detector, s: SI.State)
    requires SI.Step(det, s, SI.Publish).Some?
    ensures s.lock.Flushing? && s.lock.tid in s.txns
    ensures var x := s.txns[s.lock.tid];
      SI.Step(det, s, SI.Publish).value.history == s.history + [SI.Commit(s.lock.ts, x.readTS, x.muts)]
  {
  }

  lemma {:induction false} PublishCounts(det: Detector, key: Key, s: SI.State)
    requires CounterInv(det, key, s) && SI.Step(det, s, SI.Publish).Some?
    ensures HistoryCounts(key, s.base, SI.Step(det, s, SI.Publish).value.history)
  {
    PublishTotals(det, key, s);
    hide SI.Inv, SI.Step;
    PublishAppends(det, s);
    var h := SI.Step(det, s, SI.Publish).value.history;
    forall i | 0 <= i <= |h|
      ensures CommittedValues(key, h[..i]) == Counting(0, |CommittedValues(key, h[..i])|)
      ensures SI.SerialRead(s.base, h[..i], key) == CounterValue(|CommittedValues(key, h[..i])|)
    {
      if i < |h| { assert h[..i] == s.history[..i]; } else { assert h[..i] == h; }
    }
  }

  /** Extending the history does not change what a snapshot has seen. */
  lemma {:induction false} SeenCountStable(det: Detector, key: Key, s: SI.State, s': SI.State, t: SI.Tid)
    requires SI.Inv(det, s) && SI.Inv(det, s') && s'.base == s.base && s.history <= s'.history
    requires t in s.txns && t in s'.txns && s'.txns[t].readTS == s.txns[t].readTS
    ensures SeenCount(key, s', t) == SeenCount(key, s, t)
  {
    var n := SI.SnapshotLength(s, s.txns[t].readTS);
    assert s'.history[..n] == s.history[..n];
  }

  lemma {:induction false} AllocInv(det: Detector, key: Key, s: SI.State, t: SI.Tid)
    requires CounterInv(det, key, s) && StepOp(det, key, s, Alloc(t)).Some?
    ensures CounterInv(det, key, StepOp(det, key, s, Alloc(t)).value)
  {
    hide BufferOk, HistoryCounts, Current, SI.SerialRead, Allocated, SI.Replay;
    var m := CounterWrite(key, Current(s, t, key) + 1);
    var s' := StepOp(det, key, s, Alloc(t)).value;
    SI.StepInv(det, s, SI.Buffer(t, [m]));
    CurrentIsCount(det, key, s, t);
    BufferAlloc(key, s.txns[t].muts, SeenCount(key, s, t));
    forall u | u in s'.txns ensures BufferOk(key, s'.txns[u].muts, SeenCount(key, s', u)) {
      SeenCountStable(det, key, s, s', u);
    }
  }

  lemma {:induction false} OtherInv(det: Detector, key: Key, s: SI.State, e: SI.Event)
    requires CounterInv(det, key, s) && SI.CleanStep(s, e) && StepOp(det, key, s, Other(e)).Some?
    ensures CounterInv(det, key, StepOp(det, key, s, Other(e)).value)
  {
    var s' := SI.Step(det, s, e).value;
    SI.StepInv(det, s, e);
    SI.StepHistory(det, s, e);
    if e.Publish? { PublishCounts(det, key, s); }
    forall u | u in s'.txns ensures BufferOk(key, s'.txns[u].muts, SeenCount(key, s', u)) {
      OtherBuffers(det, key, s, e, u);
    }
  }

  lemma {:induction false} OtherBuffers(det: Detector, key: Key, s: SI.State, e: SI.Event, u: SI.Tid)
    requires CounterInv(det, key, s) && StepOp(det, key, s, Other(e)).Some?
    requires SI.Inv(det, SI.Step(det, s, e).value) && u in SI.Step(det, s, e).value.txns
    ensures var s' := SI.Step(det, s, e).value; BufferOk(key, s'.txns[u].muts, SeenCount(key, s', u))
  {
    var s' := SI.Step(det, s, e).value;
    SI.StepHistory(det, s, e);
    SI.StepBuffers(det, s, e, u);
    hide SI.Step, BufferOk;
    if u !in s.txns {
      EmptyBuffer(key, SeenCount(key, s', u));
    } else {
      SeenCountStable(det, key, s, s', u);
      if e.Buffer? && e.tid == u {
        BufferOther(key, s.txns[u].muts, e.muts, SeenCount(key, s, u));
      } else if e.Rollback? && e.tid == u {
        EmptyBuffer(key, SeenCount(key, s', u));
      }
    }
  }

  lemma {:induction false} RunOpsInv(det: Detector, key: Key, s: SI.State, ops: seq<Op>)
    requires CounterInv(det, key, s) && CleanOps(det, key, s, ops) && RunOps(det, key, s, ops).Some?
    ensures CounterInv(det, key, RunOps(det, key, s, ops).value)
    decreases |ops|
  {
    if ops != [] {
      match ops[0]
      case Alloc(t) =>
        AllocInv(det, key, s, t);
        RunOpsInv(det, key, StepOp(det, key, s, ops[0]).value, ops[1..]);
      case Other(e) =>
        OtherInv(det, key, s, e);
        RunOpsInv(det, key, StepOp(det, key, s, ops[0]).value, ops[1..]);
    }
  }

  lemma {:induction false} StartCounts(det: Detector, key: Key, base: Store)
    requires WellFormed(base) && forall ts :: (key, ts) !in base.versions
    ensures CounterInv(det, key, SI.Start(base))
  {
    SI.StartInv(det, base);
    ReadUnwritten(base.versions, key, SI.StartClock(base));
  }

  /** A live transaction's own values continue the count its snapshot saw. */
  ghost predicate Continues(key: Key, s: SI.State, t: SI.Tid)
    requires t in s.txns
  {
    exists seen: nat :: seen <= |CommittedValues(key, s.history)| &&
      Allocated(key, s.txns[t].muts) == Counting(seen, |Allocated(key, s.txns[t].muts)|)
  }

  lemma {:induction false} InvContinues(det: Detector, key: Key, s: SI.State, t: SI.Tid)
    requires CounterInv(det, key, s) && t in s.txns
    ensures Continues(key, s, t)
  {
    CountMonotone(key, s.history, SI.SnapshotLength(s, s.txns[t].readTS));
  }

  /** In every interleaved run on a sequence that starts unwritten, the values handed out by the
      committed transactions are exactly 1, 2, ..., n in commit order, several per transaction
      included; and every live transaction's own values continue the count its snapshot saw. With
      either LatestVersion, since the counter is never deleted. */
  lemma {:induction false} CommittedValuesAreGapFree(det: Detector, key: Key, base: Store, ops: seq<Op>)
    requires WellFormed(base) && forall ts :: (key, ts) !in base.versions
    requires CleanOps(det, key, SI.Start(base), ops) && RunOps(det, key, SI.Start(base), ops).Some?
    ensures var s := RunOps(det, key, SI.Start(base), ops).value;
      && CommittedValues(key, s.history) == Counting(0, |CommittedValues(key, s.history)|)
      && forall t :: t in s.txns ==> Continues(key, s, t)
  {
    StartCounts(det, key, base);
    RunOpsInv(det, key, SI.Start(base), ops);
    var s := RunOps(det, key, SI.Start(base), ops).value;
    assert s.history[..|s.history|] == s.history;
    forall t | t in s.txns ensures Continues(key, s, t) {
      InvContinues(det, key, s, t);
    }
  }
}
