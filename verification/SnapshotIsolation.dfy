/** The transaction engine (engine/internal/transactions/engine.go) as a step system: any number of
    transactions interleave, and one commit is many steps (lock, one check per key, one flush per
    key, publish). Runs are event lists, so every theorem below is about every interleaving. */
module SnapshotIsolation {
  import opened Bytes
  import opened Versions

  type Tid = nat

  datatype TxnState = TxnState(readTS: nat, muts: seq<Mutation>, done: bool)

  /** Who holds `commitMu`, and how far that commit has come. */
  datatype Lock =
    | Free
    | Checking(tid: Tid, i: nat)
    | Flushing(tid: Tid, ts: nat, i: nat)

  datatype Commit = Commit(ts: nat, readTS: nat, muts: seq<Mutation>)

  /** `base` is the store the engine was opened on, `history` the published commits in order. */
  datatype State = State(base: Store, history: seq<Commit>, store: Store, clock: nat,
                         txns: map<Tid, TxnState>, lock: Lock)

  /** `Buffer` carries the mutations one statement buffers; they are private to the transaction,
      so splitting them over several events changes nothing any other transaction can see. */
  datatype Event =
    | Begin(tid: Tid)
    | Buffer(tid: Tid, muts: seq<Mutation>)
    | Rollback(tid: Tid)
    | CommitEmpty(tid: Tid)
    | AcquireLock(tid: Tid)
    | CheckKey
    | StartFlush
    | FlushKey
    | Publish
    | FlushFails
    | Reopen

  /** `New`: the oracle resumes at the highest persisted version, 1 on a fresh store. */
  function StartClock(st: Store): (c: nat)
    ensures c >= 1 && c >= st.maxVersion
  {
    if st.maxVersion < 1 then 1 else st.maxVersion
  }

  function Start(base: Store): State {
    State(base, [], base, StartClock(base), map[], Free)
  }

  predicate Holds(s: State, t: Tid) {
    !s.lock.Free? && s.lock.tid == t
  }

  /** One step; None when the event is not enabled. */
  function Step(det: Detector, s: State, e: Event): Option<State> {
    match e
    case Begin(t) =>
      if t in s.txns then None
      else Some(s.(txns := s.txns[t := TxnState(s.clock, [], false)]))
    case Buffer(t, ms) =>
      if t !in s.txns || Holds(s, t) then None
      else Some(s.(txns := s.txns[t := s.txns[t].(muts := s.txns[t].muts + ms)]))
    case Rollback(t) =>
      if t !in s.txns || s.txns[t].done || Holds(s, t) then None
      else Some(s.(txns := s.txns[t := s.txns[t].(muts := [], done := true)]))
    case CommitEmpty(t) =>
      if t !in s.txns || s.txns[t].done || Holds(s, t) || s.txns[t].muts != [] then None
      else Some(s.(txns := s.txns[t := s.txns[t].(done := true)]))
    case AcquireLock(t) =>
      if t !in s.txns || s.txns[t].done || s.txns[t].muts == [] || !s.lock.Free? then None
      else Some(s.(lock := Checking(t, 0)))
    case CheckKey =>
      if !s.lock.Checking? || s.lock.tid !in s.txns then None
      else
        var x := s.txns[s.lock.tid];
        if s.lock.i >= |x.muts| then None
        else if Conflicts(det, s.store, x.muts[s.lock.i].key, x.readTS) then
          Some(s.(txns := s.txns[s.lock.tid := x.(done := true)], lock := Free))
        else Some(s.(lock := Checking(s.lock.tid, s.lock.i + 1)))
    case StartFlush =>
      if !s.lock.Checking? || s.lock.tid !in s.txns || s.lock.i != |s.txns[s.lock.tid].muts| then None
      else Some(s.(txns := s.txns[s.lock.tid := s.txns[s.lock.tid].(done := true)],
                   lock := Flushing(s.lock.tid, s.clock + 1, 0)))
    case FlushKey =>
      if !s.lock.Flushing? || s.lock.tid !in s.txns || s.lock.i >= |s.txns[s.lock.tid].muts| then None
      else Some(s.(store := Write(s.store, s.txns[s.lock.tid].muts[s.lock.i], s.lock.ts),
                   lock := Flushing(s.lock.tid, s.lock.ts, s.lock.i + 1)))
    case Publish =>
      if !s.lock.Flushing? || s.lock.tid !in s.txns || s.lock.i != |s.txns[s.lock.tid].muts| then None
      else
        var x := s.txns[s.lock.tid];
        Some(s.(clock := s.lock.ts, lock := Free, history := s.history + [Commit(s.lock.ts, x.readTS, x.muts)]))
    case FlushFails =>
      if !s.lock.Flushing? then None else Some(s.(lock := Free))
    case Reopen =>
      if !s.lock.Free? then None
      else Some(s.(txns := map[], clock := StartClock(s.store)))
  }

  function Run(det: Detector, s: State, es: seq<Event>): Option<State>
    decreases |es|
  {
    if es == [] then Some(s)
    else match Step(det, s, es[0]) { case None => None case Some(s') => Run(det, s', es[1..]) }
  }

  /** A flush may fail, but then nothing of it is durable. `PartialFlushShowsHalfACommit` is what
      happens otherwise. */
  predicate CleanStep(s: State, e: Event) {
    e.FlushFails? ==> s.lock.Flushing? ==> s.lock.i == 0
  }

  ghost predicate CleanRun(det: Detector, s: State, es: seq<Event>)
    decreases |es|
  {
    es == [] || (CleanStep(s, es[0]) &&
                 match Step(det, s, es[0]) { case None => true case Some(s') => CleanRun(det, s', es[1..]) })
  }

  /** `Get`: own buffered writes first, then the snapshot. */
  function Get(s: State, t: Tid, k: Key): Option<Bytes>
    requires t in s.txns
  {
    Overlay(s.txns[t].muts, k, ReadAt(s.store.versions, k, s.txns[t].readTS))
  }

  // ---- The serial reference ----

  /** The committed transactions executed one after another on the opening store. */
  function Replay(base: Store, h: seq<Commit>): Store
    decreases |h|
  {
    if h == [] then base
    else WriteAll(Replay(base, h[..|h| - 1]), h[|h| - 1].muts, h[|h| - 1].ts)
  }

  /** The value of `k` after the serial execution of `h`, without any timestamp. */
  function SerialRead(base: Store, h: seq<Commit>, k: Key): Option<Bytes>
    decreases |h|
  {
    if h == [] then ReadAt(base.versions, k, StartClock(base))
    else Overlay(h[|h| - 1].muts, k, SerialRead(base, h[..|h| - 1], k))
  }

  // ---- The invariant ----

  ghost predicate HistoryOk(base: Store, h: seq<Commit>) {
    forall i :: 0 <= i < |h| ==>
      h[i].ts == StartClock(base) + i + 1 && StartClock(base) <= h[i].readTS < h[i].ts && h[i].muts != []
  }

  ghost predicate TxnsOk(s: State) {
    forall t :: t in s.txns ==> StartClock(s.base) <= s.txns[t].readTS <= s.clock
  }

  ghost predicate Accepted(det: Detector, s: State, t: Tid, n: nat)
    requires t in s.txns && n <= |s.txns[t].muts|
  {
    forall j :: 0 <= j < n ==>
      !Conflicts(det, Replay(s.base, s.history), s.txns[t].muts[j].key, s.txns[t].readTS)
  }

  ghost predicate LockOk(det: Detector, s: State) {
    match s.lock
    case Free => true
    case Checking(t, i) =>
      && t in s.txns && !s.txns[t].done && s.txns[t].muts != []
      && i <= |s.txns[t].muts| && Accepted(det, s, t, i)
    case Flushing(t, ts, i) =>
      && t in s.txns && s.txns[t].done && s.txns[t].muts != [] && ts == s.clock + 1
      && i <= |s.txns[t].muts| && Accepted(det, s, t, |s.txns[t].muts|)
  }

  ghost predicate StoreOk(s: State)
    requires s.lock.Flushing? ==> s.lock.tid in s.txns && s.lock.i <= |s.txns[s.lock.tid].muts|
  {
    s.store == match s.lock
               case Flushing(t, ts, i) => WriteAll(Replay(s.base, s.history), s.txns[t].muts[..i], ts)
               case _ => Replay(s.base, s.history)
  }

  /** The store is the serial execution of the published commits plus the flushed part of at most
      one unpublished commit, which lies strictly above the clock. */
  ghost predicate Inv(det: Detector, s: State) {
    && WellFormed(s.base)
    && s.clock == StartClock(s.base) + |s.history|
    && HistoryOk(s.base, s.history)
    && TxnsOk(s)
    && LockOk(det, s)
    && StoreOk(s)
  }

  lemma {:induction false} ReplayShape(base: Store, h: seq<Commit>)
    requires WellFormed(base) && HistoryOk(base, h)
    ensures WellFormed(Replay(base, h))
    ensures Replay(base, h).maxVersion == if h == [] then base.maxVersion else StartClock(base) + |h|
    ensures StartClock(Replay(base, h)) == StartClock(base) + |h|
    decreases |h|
  {
    if h != [] {
      var n := |h| - 1;
      ReplayShape(base, h[..n]);
      WriteAllContents(Replay(base, h[..n]), h[n].muts, h[n].ts);
    }
  }

  /** A version above the opening clock exists exactly where some commit wrote the key. */
  lemma {:induction false} ReplayVersions(base: Store, h: seq<Commit>, k: Key, ts: nat)
    requires WellFormed(base) && HistoryOk(base, h) && ts > StartClock(base)
    ensures (k, ts) in Replay(base, h).versions <==> exists i :: 0 <= i < |h| && h[i].ts == ts && Writes(h[i].muts, k)
    decreases |h|
  {
    if h != [] {
      var n := |h| - 1;
      ReplayVersions(base, h[..n], k, ts);
      WriteAllContents(Replay(base, h[..n]), h[n].muts, h[n].ts);
      assert forall i :: 0 <= i < n ==> h[..n][i] == h[i];
    }
  }

  lemma {:induction false} ReplayBelow(base: Store, h: seq<Commit>, k: Key, at: nat)
    requires HistoryOk(base, h) && h != [] && at < StartClock(base) + |h|
    ensures ReadAt(Replay(base, h).versions, k, at) == ReadAt(Replay(base, h[..|h| - 1]).versions, k, at)
  {
    ReadBelowWriteAll(Replay(base, h[..|h| - 1]), h[|h| - 1].muts, h[|h| - 1].ts, k, at);
  }

  lemma {:induction false} ReplayLast(base: Store, h: seq<Commit>, k: Key)
    requires WellFormed(base) && HistoryOk(base, h) && h != []
    ensures var m := |h| - 1;
      ReadAt(Replay(base, h).versions, k, StartClock(base) + |h|) ==
      Overlay(h[m].muts, k, ReadAt(Replay(base, h[..m]).versions, k, StartClock(base) + m))
  {
    var m := |h| - 1;
    ReplayShape(base, h[..m]);
    assert h[m].ts == StartClock(base) + m + 1;
    ReadAfterCommit(Replay(base, h[..m]), h[m].muts, StartClock(base) + m, k);
  }

  lemma {:induction false} ReplayPrefix(base: Store, h: seq<Commit>, n: nat, k: Key)
    requires HistoryOk(base, h) && n <= |h|
    ensures ReadAt(Replay(base, h).versions, k, StartClock(base) + n) ==
      ReadAt(Replay(base, h[..n]).versions, k, StartClock(base) + n)
    decreases |h|
  {
    if n < |h| {
      var h' := h[..|h| - 1];
      ReplayBelow(base, h, k, StartClock(base) + n);
      ReplayPrefix(base, h', n, k);
      assert h'[..n] == h[..n];
    } else {
      assert h[..n] == h;
    }
  }

  lemma {:induction false} ReplayIsSerial(base: Store, h: seq<Commit>, k: Key)
    requires WellFormed(base) && HistoryOk(base, h)
    ensures ReadAt(Replay(base, h).versions, k, StartClock(base) + |h|) == SerialRead(base, h, k)
    decreases |h|
  {
    if h != [] {
      ReplayLast(base, h, k);
      ReplayIsSerial(base, h[..|h| - 1], k);
    }
  }

  /** Reading the replayed store at a past timestamp is the serial state at that point. */
  lemma {:induction false} ReplayReads(base: Store, h: seq<Commit>, n: nat, k: Key)
    requires WellFormed(base) && HistoryOk(base, h) && n <= |h|
    ensures ReadAt(Replay(base, h).versions, k, StartClock(base) + n) == SerialRead(base, h[..n], k)
  {
    ReplayPrefix(base, h, n, k);
    ReplayIsSerial(base, h[..n], k);
  }

  lemma {:induction false} StartInv(det: Detector, base: Store)
    requires WellFormed(base)
    ensures Inv(det, Start(base))
  {
  }

  lemma {:induction false} FlushStepInv(det: Detector, s: State, e: Event)
    requires e in {StartFlush, FlushKey, FlushFails}
    requires Inv(det, s) && CleanStep(s, e) && Step(det, s, e).Some?
    ensures Inv(det, Step(det, s, e).value)
  {
    var ms := s.txns[s.lock.tid].muts;
    assert ms[..0] == [];
    if e.FlushKey? { assert ms[..s.lock.i + 1][..s.lock.i] == ms[..s.lock.i]; }
  }

  lemma {:induction false} PublishStepInv(det: Detector, s: State)
    requires Inv(det, s) && Step(det, s, Publish).Some?
    ensures Inv(det, Step(det, s, Publish).value)
  {
    var s' := Step(det, s, Publish).value;
    var ms := s.txns[s.lock.tid].muts;
    assert ms[..|ms|] == ms;
    assert s'.history[..|s.history|] == s.history;
  }

  lemma {:induction false} TxnStepInv(det: Detector, s: State, e: Event)
    requires e.Begin? || e.Buffer? || e.Rollback? || e.CommitEmpty?
    requires Inv(det, s) && Step(det, s, e).Some?
    ensures Inv(det, Step(det, s, e).value)
  {
    hide Replay, WriteAll, WellFormed, StartClock, Conflicts;
  }

  lemma {:induction false} CheckStepInv(det: Detector, s: State, e: Event)
    requires e.AcquireLock? || e.CheckKey?
    requires Inv(det, s) && Step(det, s, e).Some?
    ensures Inv(det, Step(det, s, e).value)
  {
    hide Replay, WriteAll, WellFormed, StartClock, Conflicts;
  }

  lemma {:induction false} StepInv(det: Detector, s: State, e: Event)
    requires Inv(det, s) && CleanStep(s, e) && Step(det, s, e).Some?
    ensures Inv(det, Step(det, s, e).value)
  {
    hide Replay, WriteAll, Conflicts, Write;
    match e
    case Begin(_) | Buffer(_, _) | Rollback(_) | CommitEmpty(_) => TxnStepInv(det, s, e);
    case AcquireLock(_) | CheckKey => CheckStepInv(det, s, e);
    case StartFlush | FlushKey | FlushFails => FlushStepInv(det, s, e);
    case Publish => PublishStepInv(det, s);
    case Reopen => ReplayShape(s.base, s.history);
  }

  /** One step extends the history by at most one commit, newer than everything published. */
  lemma {:induction false} StepHistory(det: Detector, s: State, e: Event)
    requires Step(det, s, e).Some?
    ensures e.Publish? ==> s.lock.Flushing? && s.lock.tid in s.txns
    ensures Step(det, s, e).value.base == s.base
    ensures s.history <= Step(det, s, e).value.history
    ensures !e.Publish? ==> Step(det, s, e).value.history == s.history
    ensures e.Publish? ==>
      var x := s.txns[s.lock.tid];
      Step(det, s, e).value.history == s.history + [Commit(s.lock.ts, x.readTS, x.muts)]
    ensures e.Publish? && Inv(det, s) ==> forall i :: 0 <= i < |s.history| ==> s.history[i].ts < s.lock.ts
    ensures !e.Reopen? ==> forall t :: t in s.txns ==>
      t in Step(det, s, e).value.txns && Step(det, s, e).value.txns[t].readTS == s.txns[t].readTS
  {
  }

  /** How one step changes a transaction's buffer. */
  lemma {:induction false} StepBuffers(det: Detector, s: State, e: Event, t: Tid)
    requires Step(det, s, e).Some? && t in Step(det, s, e).value.txns
    ensures t !in s.txns ==> Step(det, s, e).value.txns[t].muts == []
    ensures t in s.txns && !e.Reopen? ==>
      Step(det, s, e).value.txns[t].muts ==
        if e.Buffer? && e.tid == t then s.txns[t].muts + e.muts
        else if e.Rollback? && e.tid == t then []
        else s.txns[t].muts
    ensures !e.Reopen?
  {
  }

  lemma {:induction false} RunInv(det: Detector, s: State, es: seq<Event>)
    requires Inv(det, s) && CleanRun(det, s, es) && Run(det, s, es).Some?
    ensures var s' := Run(det, s, es).value;
      && Inv(det, s') && s'.base == s.base && s.history <= s'.history
      && (Reopen !in es ==> forall t :: t in s.txns ==> t in s'.txns && s'.txns[t].readTS == s.txns[t].readTS)
    decreases |es|
  {
    if es != [] {
      StepInv(det, s, es[0]);
      StepHistory(det, s, es[0]);
      RunInv(det, Step(det, s, es[0]).value, es[1..]);
      assert Reopen !in es ==> Reopen !in es[1..];
    }
  }

  // ---- Snapshot isolation ----

  /** The number of commits a snapshot at `ts` contains. */
  function SnapshotLength(s: State, ts: nat): nat
    requires StartClock(s.base) <= ts
  {
    ts - StartClock(s.base)
  }

  /** In every reachable state a snapshot at or below the clock is exactly a prefix of the commit
      history: those commits in full, nothing of any other, published or in flight. */
  lemma {:induction false} SnapshotIsPrefix(det: Detector, s: State, ts: nat, k: Key)
    requires Inv(det, s) && StartClock(s.base) <= ts <= s.clock
    ensures SnapshotLength(s, ts) <= |s.history|
    ensures ReadAt(s.store.versions, k, ts) == SerialRead(s.base, s.history[..SnapshotLength(s, ts)], k)
  {
    var r := Replay(s.base, s.history);
    if s.lock.Flushing? {
      ReadBelowWriteAll(r, s.txns[s.lock.tid].muts[..s.lock.i], s.lock.ts, k, ts);
    }
    ReplayReads(s.base, s.history, SnapshotLength(s, ts), k);
  }

  /** Every commit is seen in full or not at all, in every state of every run. */
  lemma {:induction false} AtomicVisibility(det: Detector, base: Store, es: seq<Event>, t: Tid, k: Key)
    requires WellFormed(base)
    requires CleanRun(det, Start(base), es) && Run(det, Start(base), es).Some?
    requires t in Run(det, Start(base), es).value.txns
    ensures var s := Run(det, Start(base), es).value;
      exists n :: 0 <= n <= |s.history|
        && (forall i :: 0 <= i < |s.history| ==> (i < n <==> s.history[i].ts <= s.txns[t].readTS))
        && ReadAt(s.store.versions, k, s.txns[t].readTS) == SerialRead(base, s.history[..n], k)
  {
    StartInv(det, base);
    RunInv(det, Start(base), es);
    var s := Run(det, Start(base), es).value;
    SnapshotIsPrefix(det, s, s.txns[t].readTS, k);
    var n := SnapshotLength(s, s.txns[t].readTS);
    assert forall i :: 0 <= i < |s.history| ==> (i < n <==> s.history[i].ts <= s.txns[t].readTS);
  }

  /** A transaction's snapshot never changes while it lives, whatever the others do. */
  lemma {:induction false} SnapshotStable(det: Detector, base: Store, before: seq<Event>, during: seq<Event>, t: Tid,
                                          k: Key)
    requires WellFormed(base)
    requires CleanRun(det, Start(base), before) && Run(det, Start(base), before).Some?
    requires var s := Run(det, Start(base), before).value;
      t in s.txns && CleanRun(det, s, during) && Run(det, s, during).Some?
    ensures var s := Run(det, Start(base), before).value;
      var s' := Run(det, s, during).value;
      && ReadAt(s'.store.versions, k, s.txns[t].readTS) == ReadAt(s.store.versions, k, s.txns[t].readTS)
      && (Reopen !in during ==> t in s'.txns && s'.txns[t].readTS == s.txns[t].readTS)
      && (Reopen !in during && s'.txns[t].muts == s.txns[t].muts ==> Get(s', t, k) == Get(s, t, k))
  {
    StartInv(det, base);
    RunInv(det, Start(base), before);
    var s := Run(det, Start(base), before).value;
    RunInv(det, s, during);
    var s' := Run(det, s, during).value;
    var ts := s.txns[t].readTS;
    SnapshotIsPrefix(det, s, ts, k);
    SnapshotIsPrefix(det, s', ts, k);
    var n := SnapshotLength(s, ts);
    assert s'.history[..n] == s.history[..n];
  }

  // ---- No lost update ----

  /** First committer wins: of two commits of one key, the later had the earlier in its snapshot. */
  ghost predicate NoLostUpdate(h: seq<Commit>) {
    forall i, j, k :: 0 <= i < j < |h| && Writes(h[i].muts, k) && Writes(h[j].muts, k) ==>
      h[i].ts <= h[j].readTS
  }

  /** A published delete newer than the transaction's snapshot is the newest version of a key
      the transaction writes. */
  ghost predicate OverwritesNewerDelete(s: State, t: Tid)
    requires t in s.txns
  {
    exists k :: Writes(s.txns[t].muts, k) && NewerDelete(s, k, s.txns[t].readTS)
  }

  predicate NewerDelete(s: State, k: Key, readTS: nat) {
    var n := NewestTs(s.store.versions, k, s.clock);
    n.Some? && n.value > readTS && s.store.versions[(k, n.value)].Deleted?
  }

  /** While a commit holds the lock, `NewestTs` at the clock is the newest published version. */
  lemma {:induction false} PublishedNewest(det: Detector, s: State, k: Key)
    requires Inv(det, s)
    ensures var r := Replay(s.base, s.history);
      && WellFormed(r)
      && NewestTs(s.store.versions, k, s.clock) == NewestTs(r.versions, k, r.maxVersion)
      && (NewestTs(s.store.versions, k, s.clock).Some? ==>
            s.store.versions[(k, NewestTs(s.store.versions, k, s.clock).value)]
            == r.versions[(k, NewestTs(s.store.versions, k, s.clock).value)])
  {
    var r := Replay(s.base, s.history);
    ReplayShape(s.base, s.history);
    match s.lock {
      case Flushing(t, fts, i) =>
        WriteAllContents(r, s.txns[t].muts[..i], fts);
        ReadAtFrame(s.store.versions, r.versions, k, s.clock);
      case _ =>
    }
    ReadAtGap(r.versions, k, r.maxVersion, s.clock);
  }

  /** The commit about to be published loses an earlier update exactly when, under the shipped
      check, it overwrites a delete newer than its snapshot; under the contract it never does. */
  lemma {:induction false} PublishLosesNothing(det: Detector, s: State)
    requires Inv(det, s) && s.lock.Flushing? && NoLostUpdate(s.history)
    ensures var x := s.txns[s.lock.tid];
      NoLostUpdate(s.history + [Commit(s.lock.ts, x.readTS, x.muts)]) <==>
      (det.Contract? || !OverwritesNewerDelete(s, s.lock.tid))
  {
    var t := s.lock.tid;
    var x := s.txns[t];
    var c := Commit(s.lock.ts, x.readTS, x.muts);
    var h := s.history + [c];
    var n := |s.history|;
    if det.Contract? || !OverwritesNewerDelete(s, t) {
      forall i, j, k | 0 <= i < j < |h| && Writes(h[i].muts, k) && Writes(h[j].muts, k)
        ensures h[i].ts <= h[j].readTS
      {
        if j == n {
          ReplayVersions(s.base, s.history, k, h[i].ts);
          PublishedNewest(det, s, k);
          var r := Replay(s.base, s.history);
          NewestTsBound(r.versions, k, r.maxVersion);
          var m :| 0 <= m < |x.muts| && x.muts[m].key == k;
          assert !Conflicts(det, r, k, x.readTS);
        } else {
          assert s.history[i] == h[i] && s.history[j] == h[j];
        }
      }
    } else {
      var k :| Writes(x.muts, k) && NewerDelete(s, k, x.readTS);
      PublishedNewest(det, s, k);
      var ts := NewestTs(s.store.versions, k, s.clock).value;
      ReplayVersions(s.base, s.history, k, ts);
      var i :| 0 <= i < n && s.history[i].ts == ts && Writes(s.history[i].muts, k);
      assert h[i] == s.history[i] && h[n] == c;
    }
  }

  /** Every publish of the run, under the shipped check, avoided overwriting a newer delete. */
  ghost predicate NeverOverwritesNewerDelete(det: Detector, s: State, es: seq<Event>)
    decreases |es|
  {
    es == [] ||
    ((es[0].Publish? && s.lock.Flushing? && s.lock.tid in s.txns ==> !OverwritesNewerDelete(s, s.lock.tid)) &&
     match Step(det, s, es[0]) { case None => true case Some(s') => NeverOverwritesNewerDelete(det, s', es[1..]) })
  }

  lemma {:induction false} StepLostUpdates(det: Detector, s: State, e: Event)
    requires Inv(det, s) && CleanStep(s, e) && Step(det, s, e).Some?
    ensures NoLostUpdate(Step(det, s, e).value.history) <==>
      NoLostUpdate(s.history) &&
      (det.Contract? || (e.Publish? ==> !OverwritesNewerDelete(s, s.lock.tid)))
  {
    StepHistory(det, s, e);
    if e.Publish? {
      if NoLostUpdate(s.history) {
        PublishLosesNothing(det, s);
      } else if NoLostUpdate(Step(det, s, e).value.history) {
        LostUpdateStays(s.history, Step(det, s, e).value.history);
      }
    }
  }

  lemma {:induction false} RunLostUpdates(det: Detector, s: State, es: seq<Event>)
    requires Inv(det, s) && CleanRun(det, s, es) && Run(det, s, es).Some?
    ensures NoLostUpdate(Run(det, s, es).value.history) <==>
      NoLostUpdate(s.history) && (det.Contract? || NeverOverwritesNewerDelete(det, s, es))
    decreases |es|
  {
    if es != [] {
      StepInv(det, s, es[0]);
      StepLostUpdates(det, s, es[0]);
      RunLostUpdates(det, Step(det, s, es[0]).value, es[1..]);
    }
  }

  lemma {:induction false} LostUpdateStays(h: seq<Commit>, h': seq<Commit>)
    requires h <= h' && NoLostUpdate(h')
    ensures NoLostUpdate(h)
  {
    assert forall i :: 0 <= i < |h| ==> h[i] == h'[i];
  }

  /** In every run commit timestamps increase one by one. No update is ever lost under the
      LatestVersion contract; with the shipped LatestVersion, none is lost exactly in the runs that
      never publish over a delete newer than the publisher's snapshot. */
  lemma {:induction false} NoLostUpdateInAnyRun(det: Detector, base: Store, es: seq<Event>)
    requires WellFormed(base)
    requires CleanRun(det, Start(base), es) && Run(det, Start(base), es).Some?
    ensures var h := Run(det, Start(base), es).value.history;
      && (forall i, j :: 0 <= i < j < |h| ==> h[i].ts < h[j].ts)
      && (NoLostUpdate(h) <==> det.Contract? || NeverOverwritesNewerDelete(det, Start(base), es))
  {
    StartInv(det, base);
    RunInv(det, Start(base), es);
    RunLostUpdates(det, Start(base), es);
  }

  /** What an accepted writer overwrites is what its snapshot showed it, except that the shipped
      check also lets it overwrite a delete. */
  lemma {:induction false} WrittenKeyUnchanged(det: Detector, s: State, k: Key)
    requires Inv(det, s) && s.lock.Flushing? && Writes(s.txns[s.lock.tid].muts, k)
    ensures var x := s.txns[s.lock.tid];
      SerialRead(s.base, s.history, k) == ReadAt(s.store.versions, k, x.readTS)
      || (det.Shipped? && SerialRead(s.base, s.history, k).None?)
  {
    var x := s.txns[s.lock.tid];
    var r := Replay(s.base, s.history);
    PublishedNewest(det, s, k);
    ReplayShape(s.base, s.history);
    SnapshotIsPrefix(det, s, s.clock, k);
    assert s.history[..|s.history|] == s.history;
    var m :| 0 <= m < |x.muts| && x.muts[m].key == k;
    assert !Conflicts(det, r, k, x.readTS);
    NewestTsBound(s.store.versions, k, s.clock);
    if SerialRead(s.base, s.history, k).Some? || det.Contract? {
      ReadAtGap(s.store.versions, k, x.readTS, s.clock);
    }
  }
}
