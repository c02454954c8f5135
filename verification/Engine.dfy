/** The engine object itself (engine/internal/transactions/engine.go), method by method, and the
    proof that one uninterrupted `Commit` is a run of the step system. */
module Engine {
  import opened Bytes
  import opened Versions
  import R = Replication
  import SI = SnapshotIsolation

  datatype CommitResult = Ok | ErrTxnDone | ErrWriteConflict | ErrStorage
  datatype GetResult = Found(value: Bytes) | ErrKeyNotFound | ErrDone

  /** What the storage does during one commit: nothing wrong, an error when the version of the `at`-th key is
      looked up, or a flush that fails with `durable` writes made. */
  datatype Fault = NoFault | LookupFails(at: nat) | FlushFails(durable: nat)

  /** What the proposer hears: the outcome, or an error although the entry may have been applied. */
  datatype Reply = Outcome | NoReply(applied: bool)

  function Least(a: nat, b: nat): (r: nat)
    ensures r <= a && r <= b && (r == a || r == b)
  {
    if a < b then a else b
  }

  /** Some buffered key has a newer version, and no lookup fails before it is reached. */
  ghost predicate ConflictSeen(det: Detector, st: Store, muts: seq<Mutation>, readTS: nat, fault: Fault) {
    exists i :: 0 <= i < |muts| && Conflicts(det, st, muts[i].key, readTS) && (fault.LookupFails? ==> i < fault.at)
  }

  class Txn {
    const readTS: nat
    var mutations: seq<Mutation>
    var done: bool

    constructor (readTS: nat)
      ensures this.readTS == readTS && mutations == [] && !done
    {
      this.readTS := readTS;
      mutations := [];
      done := false;
    }
  }

  class Engine {
    const detector: Detector
    var store: Store
    var clock: nat

    constructor (detector: Detector, store: Store)
      ensures this.detector == detector && this.store == store
      ensures clock == SI.Start(store).clock
    {
      this.detector := detector;
      this.store := store;
      var start := store.maxVersion;
      if start < 1 { start := 1; }
      clock := start;
    }

    method Begin() returns (txn: Txn)
      ensures fresh(txn) && txn.readTS == clock && txn.mutations == [] && !txn.done
    {
      txn := new Txn(clock);
    }

    /** Scans the buffer newest first, then reads the snapshot. */
    method Get(txn: Txn, k: Key) returns (r: GetResult)
      ensures r == if txn.done then ErrDone
                   else match Overlay(txn.mutations, k, ReadAt(store.versions, k, txn.readTS))
                        case Some(v) => Found(v)
                        case None => ErrKeyNotFound
    {
      if txn.done { return ErrDone; }
      var i := |txn.mutations| - 1;
      assert txn.mutations[..i + 1] == txn.mutations;
      while i >= 0
        invariant -1 <= i < |txn.mutations|
        invariant LastWrite(txn.mutations, k) == LastWrite(txn.mutations[..i + 1], k)
      {
        var m := txn.mutations[i];
        assert txn.mutations[..i + 1][..i] == txn.mutations[..i];
        if m.key == k {
          return if m.delete then ErrKeyNotFound else Found(m.value);
        }
        i := i - 1;
      }
      match ReadAt(store.versions, k, txn.readTS)
      case Some(v) => return Found(v);
      case None => return ErrKeyNotFound;
    }

    method Buffer(txn: Txn, m: Mutation)
      modifies txn
      ensures txn.mutations == old(txn.mutations) + [m] && txn.done == old(txn.done)
    {
      txn.mutations := txn.mutations + [m];
    }

    /** A failed version lookup leaves the transaction open; every other outcome closes it. */
    method Commit(txn: Txn, fault: Fault) returns (r: CommitResult)
      modifies this, txn
      ensures txn.mutations == old(txn.mutations)
      ensures r.ErrTxnDone? <==> old(txn.done)
      ensures r.ErrWriteConflict? <==>
        !old(txn.done) && ConflictSeen(detector, old(store), txn.mutations, txn.readTS, fault)
      ensures r == Ok <==>
        && !r.ErrTxnDone? && !r.ErrWriteConflict?
        && (txn.mutations == [] || fault.NoFault? || (fault.LookupFails? && fault.at >= |txn.mutations|))
      ensures txn.done <==> !(r.ErrStorage? && fault.LookupFails?)
      ensures store == if r == Ok then WriteAll(old(store), txn.mutations, old(clock) + 1)
        else if r.ErrStorage? && fault.FlushFails?
        then WriteAll(old(store), txn.mutations[..Least(fault.durable, |txn.mutations|)], old(clock) + 1)
        else old(store)
      ensures clock == if r == Ok && txn.mutations != [] then old(clock) + 1 else old(clock)
    {
      if txn.done { return ErrTxnDone; }
      if |txn.mutations| == 0 {
        txn.done := true;
        return Ok;
      }
      ghost var before := store;
      var i := 0;
      while i < |txn.mutations|
        invariant 0 <= i <= |txn.mutations| && (fault.LookupFails? ==> i <= fault.at)
        invariant forall j :: 0 <= j < i ==> !Conflicts(detector, store, txn.mutations[j].key, txn.readTS)
        invariant !txn.done && txn.mutations == old(txn.mutations) && store == old(store) && clock == old(clock)
      {
        if fault == LookupFails(i) { return ErrStorage; }
        var latest := LatestVersion(detector, store, txn.mutations[i].key);
        if latest.Some? && latest.value > txn.readTS {
          txn.done := true;
          return ErrWriteConflict;
        }
        i := i + 1;
      }
      txn.done := true;
      var commitTS := clock + 1;
      i := 0;
      assert txn.mutations[..0] == [];
      while i < |txn.mutations| && fault != FlushFails(i)
        invariant 0 <= i <= |txn.mutations| && (fault.FlushFails? ==> i <= fault.durable)
        invariant store == WriteAll(before, txn.mutations[..i], commitTS)
        invariant txn.done && txn.mutations == old(txn.mutations) && clock == old(clock)
      {
        assert txn.mutations[..i + 1][..i] == txn.mutations[..i];
        store := Write(store, txn.mutations[i], commitTS);
        i := i + 1;
      }
      if fault.FlushFails? {
        return ErrStorage;
      }
      assert txn.mutations[..i] == txn.mutations;
      clock := commitTS;
      return Ok;
    }

    /** The clustered path: the batch goes through the log and the state machine decides at its index. */
    method CommitReplicated(txn: Txn, machine: R.StateMachine, index: nat, reply: Reply) returns (r: CommitResult)
      requires txn.readTS <= R.NO_CONFLICT_READ_TS && R.Encodable(txn.mutations) && index != R.RESULT_ABORTED
      modifies txn, machine
      ensures txn.done && txn.mutations == old(txn.mutations)
      ensures r.ErrTxnDone? <==> old(txn.done)
      ensures r.ErrStorage? <==> !old(txn.done) && txn.mutations != [] && reply.NoReply?
      ensures r.ErrWriteConflict? <==>
        && !old(txn.done) && !r.ErrStorage?
        && AnyConflict(machine.detector, old(machine.store), txn.mutations, txn.readTS)
      ensures machine.store ==
        if (r == Ok || (r.ErrStorage? && reply.applied &&
                        !AnyConflict(machine.detector, old(machine.store), txn.mutations, txn.readTS)))
        then WriteAll(old(machine.store), txn.mutations, index) else old(machine.store)
    {
      if txn.done { return ErrTxnDone; }
      txn.done := true;
      if |txn.mutations| == 0 {
        return Ok;
      }
      var cmd := R.MarshalProposal(txn.readTS, txn.mutations);
      R.ProposalRoundTrip(txn.readTS, txn.mutations);
      if reply.NoReply? && !reply.applied {
        return ErrStorage;
      }
      var res := machine.Update(index, cmd);
      if reply.NoReply? {
        return ErrStorage;
      }
      return if res == Some(R.RESULT_ABORTED) then ErrWriteConflict else Ok;
    }

    method Rollback(txn: Txn) returns (r: CommitResult)
      modifies txn
      ensures txn.done && r == (if old(txn.done) then ErrTxnDone else Ok)
      ensures txn.mutations == if old(txn.done) then old(txn.mutations) else []
    {
      if txn.done { return ErrTxnDone; }
      txn.done := true;
      txn.mutations := [];
      return Ok;
    }
  }

  // ---- One Commit as a run of steps ----

  function Repeat(e: SI.Event, n: nat): (r: seq<SI.Event>)
    ensures |r| == n
  {
    if n == 0 then [] else [e] + Repeat(e, n - 1)
  }

  function CommitEvents(t: SI.Tid, n: nat): seq<SI.Event> {
    [SI.AcquireLock(t)] + Repeat(SI.CheckKey, n) + [SI.StartFlush] + Repeat(SI.FlushKey, n) + [SI.Publish]
  }

  function AbortEvents(t: SI.Tid, n: nat): seq<SI.Event> {
    [SI.AcquireLock(t)] + Repeat(SI.CheckKey, n)
  }

  /** The state after transaction `t` committed. */
  function AfterCommit(s: SI.State, t: SI.Tid): SI.State
    requires t in s.txns
  {
    var x := s.txns[t];
    s.(store := WriteAll(s.store, x.muts, s.clock + 1), clock := s.clock + 1,
       txns := s.txns[t := x.(done := true)],
       history := s.history + [SI.Commit(s.clock + 1, x.readTS, x.muts)])
  }

  lemma {:induction false} RunAppend(det: Detector, s: SI.State, es: seq<SI.Event>, fs: seq<SI.Event>)
    requires SI.Run(det, s, es).Some?
    ensures SI.Run(det, s, es + fs) == SI.Run(det, SI.Run(det, s, es).value, fs)
    decreases |es|
  {
    if es == [] {
      assert es + fs == fs;
    } else {
      assert (es + fs)[1..] == es[1..] + fs;
      RunAppend(det, SI.Step(det, s, es[0]).value, es[1..], fs);
    }
  }

  lemma {:induction false} RunOne(det: Detector, s: SI.State, e: SI.Event)
    ensures SI.Run(det, s, [e]) == SI.Step(det, s, e)
  {
    assert [e][1..] == [];
  }

  lemma {:induction false} RunTwo(det: Detector, s: SI.State, e: SI.Event, f: SI.Event)
    requires SI.Step(det, s, e).Some?
    ensures SI.Run(det, s, [e, f]) == SI.Step(det, SI.Step(det, s, e).value, f)
  {
    RunOne(det, s, e);
    RunOne(det, SI.Step(det, s, e).value, f);
    RunAppend(det, s, [e], [f]);
  }

  lemma {:induction false} RunThree(det: Detector, s: SI.State, e: SI.Event, f: SI.Event, g: SI.Event)
    requires SI.Step(det, s, e).Some? && SI.Step(det, SI.Step(det, s, e).value, f).Some?
    ensures SI.Run(det, s, [e, f, g]) == SI.Step(det, SI.Step(det, SI.Step(det, s, e).value, f).value, g)
  {
    RunTwo(det, s, e, f);
    RunOne(det, SI.Run(det, s, [e, f]).value, g);
    RunAppend(det, s, [e, f], [g]);
    assert [e, f] + [g] == [e, f, g];
  }

  lemma {:induction false} CheckLoop(det: Detector, s: SI.State, n: nat)
    requires s.lock.Checking? && s.lock.tid in s.txns && s.lock.i + n <= |s.txns[s.lock.tid].muts|
    requires var x := s.txns[s.lock.tid];
      forall j :: s.lock.i <= j < s.lock.i + n ==> !Conflicts(det, s.store, x.muts[j].key, x.readTS)
    ensures SI.Run(det, s, Repeat(SI.CheckKey, n)) == Some(s.(lock := SI.Checking(s.lock.tid, s.lock.i + n)))
    decreases n
  {
    if n > 0 {
      assert Repeat(SI.CheckKey, n)[1..] == Repeat(SI.CheckKey, n - 1);
      CheckLoop(det, s.(lock := SI.Checking(s.lock.tid, s.lock.i + 1)), n - 1);
    }
  }

  lemma {:induction false} FlushLoop(det: Detector, s: SI.State, base: Store, n: nat)
    requires s.lock.Flushing? && s.lock.tid in s.txns && s.lock.i + n <= |s.txns[s.lock.tid].muts|
    requires s.store == WriteAll(base, s.txns[s.lock.tid].muts[..s.lock.i], s.lock.ts)
    ensures SI.Run(det, s, Repeat(SI.FlushKey, n)) ==
      Some(s.(store := WriteAll(base, s.txns[s.lock.tid].muts[..s.lock.i + n], s.lock.ts),
              lock := SI.Flushing(s.lock.tid, s.lock.ts, s.lock.i + n)))
    decreases n
  {
    if n > 0 {
      assert Repeat(SI.FlushKey, n)[1..] == Repeat(SI.FlushKey, n - 1);
      var ms := s.txns[s.lock.tid].muts;
      assert ms[..s.lock.i + 1][..s.lock.i] == ms[..s.lock.i];
      FlushLoop(det, SI.Step(det, s, SI.FlushKey).value, base, n - 1);
    }
  }

  /** The steps of an accepted commit, uninterrupted, have the effect of the `Commit` method. */
  lemma {:induction false} CommitRefinesSteps(det: Detector, s: SI.State, t: SI.Tid)
    requires s.lock.Free? && t in s.txns && !s.txns[t].done && s.txns[t].muts != []
    requires !AnyConflict(det, s.store, s.txns[t].muts, s.txns[t].readTS)
    ensures SI.Run(det, s, CommitEvents(t, |s.txns[t].muts|)) == Some(AfterCommit(s, t))
  {
    var n := |s.txns[t].muts|;
    var e1, e2, e3 := [SI.AcquireLock(t)], Repeat(SI.CheckKey, n), [SI.StartFlush];
    var e4, e5 := Repeat(SI.FlushKey, n), [SI.Publish];
    RunOne(det, s, SI.AcquireLock(t));
    var s1 := SI.Step(det, s, SI.AcquireLock(t)).value;
    CheckLoop(det, s1, n);
    RunAppend(det, s, e1, e2);
    var s2 := s1.(lock := SI.Checking(t, n));
    RunOne(det, s2, SI.StartFlush);
    RunAppend(det, s, e1 + e2, e3);
    var s3 := SI.Step(det, s2, SI.StartFlush).value;
    assert s3.txns[t].muts[..0] == [];
    FlushLoop(det, s3, s.store, n);
    RunAppend(det, s, e1 + e2 + e3, e4);
    var s4 := SI.Run(det, s3, e4).value;
    assert s.txns[t].muts[..n] == s.txns[t].muts;
    RunOne(det, s4, SI.Publish);
    RunAppend(det, s, e1 + e2 + e3 + e4, e5);
  }

  /** The steps of a rejected commit leave the store and the clock alone. */
  lemma {:induction false} AbortRefinesSteps(det: Detector, s: SI.State, t: SI.Tid, n: nat)
    requires s.lock.Free? && t in s.txns && !s.txns[t].done && n < |s.txns[t].muts|
    requires Conflicts(det, s.store, s.txns[t].muts[n].key, s.txns[t].readTS)
    requires forall j :: 0 <= j < n ==> !Conflicts(det, s.store, s.txns[t].muts[j].key, s.txns[t].readTS)
    ensures SI.Run(det, s, AbortEvents(t, n) + [SI.CheckKey]) ==
      Some(s.(txns := s.txns[t := s.txns[t].(done := true)]))
  {
    RunOne(det, s, SI.AcquireLock(t));
    var s1 := SI.Step(det, s, SI.AcquireLock(t)).value;
    CheckLoop(det, s1, n);
    RunAppend(det, s, [SI.AcquireLock(t)], Repeat(SI.CheckKey, n));
    RunOne(det, s1.(lock := SI.Checking(t, n)), SI.CheckKey);
    RunAppend(det, s, AbortEvents(t, n), [SI.CheckKey]);
  }

  // ---- Two runs that break the promises ----

  function LostDeleteRun(k: Key, v: Bytes): seq<SI.Event> {
    [SI.Begin(0), SI.Begin(1), SI.Buffer(0, [Mutation(k, [], true)])] + CommitEvents(0, 1)
    + [SI.Buffer(1, [Mutation(k, v, false)])] + CommitEvents(1, 1)
  }

  /** Two transactions have begun on a store holding `k`, and transaction 0 wants to delete it. */
  function DeleteStart(k: Key, v: Bytes): SI.State {
    SI.Start(Store(map[(k, 1) := Put(v)], 1)).(
      txns := map[0 := SI.TxnState(1, [Mutation(k, [], true)], false), 1 := SI.TxnState(1, [], false)])
  }

  lemma {:induction false} DeleteStartReached(k: Key, v: Bytes)
    ensures SI.Run(Shipped, SI.Start(Store(map[(k, 1) := Put(v)], 1)),
                   [SI.Begin(0), SI.Begin(1), SI.Buffer(0, [Mutation(k, [], true)])]) == Some(DeleteStart(k, v))
  {
    var s := SI.Start(Store(map[(k, 1) := Put(v)], 1));
    RunThree(Shipped, s, SI.Begin(0), SI.Begin(1), SI.Buffer(0, [Mutation(k, [], true)]));
    assert [] + [Mutation(k, [], true)] == [Mutation(k, [], true)];
    assert SI.Run(Shipped, s, [SI.Begin(0), SI.Begin(1), SI.Buffer(0, [Mutation(k, [], true)])]).value.txns
        == DeleteStart(k, v).txns;
  }

  /** Transaction 0 has committed its delete; transaction 1, begun before, has buffered an update. */
  function DeleteCommitted(k: Key, v: Bytes): SI.State {
    var s := AfterCommit(DeleteStart(k, v), 0);
    s.(txns := s.txns[1 := SI.TxnState(1, [Mutation(k, v, false)], false)])
  }

  lemma {:induction false} DeleteCommittedReached(k: Key, v: Bytes)
    ensures var s := SI.Start(Store(map[(k, 1) := Put(v)], 1));
      var e := [SI.Begin(0), SI.Begin(1), SI.Buffer(0, [Mutation(k, [], true)])];
      var last := SI.Buffer(1, [Mutation(k, v, false)]);
      SI.Run(Shipped, s, e + CommitEvents(0, 1) + [last]) == Some(DeleteCommitted(k, v))
  {
    hide CommitEvents, SI.Run;
    var s := SI.Start(Store(map[(k, 1) := Put(v)], 1));
    var e := [SI.Begin(0), SI.Begin(1), SI.Buffer(0, [Mutation(k, [], true)])];
    var s1 := DeleteStart(k, v);
    DeleteStartReached(k, v);
    CommitRefinesSteps(Shipped, s1, 0);
    var s2 := AfterCommit(s1, 0);
    RunAppend(Shipped, s, e, CommitEvents(0, 1));
    var m := [Mutation(k, v, false)];
    RunOne(Shipped, s2, SI.Buffer(1, m));
    assert [] + m == m;
    RunAppend(Shipped, s, e + CommitEvents(0, 1), [SI.Buffer(1, m)]);
  }

  /** The shipped check finds nothing, and the commit brings the row back. */
  lemma {:induction false} UpdateCommits(k: Key, v: Bytes)
    ensures var s, r := DeleteCommitted(k, v), SI.Run(Shipped, DeleteCommitted(k, v), CommitEvents(1, 1));
      && r.Some? && !SI.NoLostUpdate(r.value.history) && ReadAt(r.value.store.versions, k, r.value.clock) == Some(v)
  {
    hide CommitEvents, SI.Run;
    var s := DeleteCommitted(k, v);
    WriteOne(DeleteStart(k, v).store, Mutation(k, [], true), 2);
    assert s.store.versions[(k, 2)] == Deleted && s.store.maxVersion == 2;
    assert LatestVersion(Shipped, s.store, k) == None;
    CommitRefinesSteps(Shipped, s, 1);
    WriteOne(s.store, Mutation(k, v, false), 3);
    var h := AfterCommit(s, 1).history;
    assert h[0].muts[0].key == k && h[1].muts[0].key == k;
    assert Writes(h[0].muts, k) && Writes(h[1].muts, k);
  }

  /** With the shipped LatestVersion a concurrent delete is lost: transaction 1, which never saw
      the delete, brings the row back. The contract would have reported the conflict. */
  lemma {:induction false} ShippedCheckLosesADelete(k: Key, v: Bytes)
    ensures var r := SI.Run(Shipped, SI.Start(Store(map[(k, 1) := Put(v)], 1)), LostDeleteRun(k, v));
      r.Some? && !SI.NoLostUpdate(r.value.history) && ReadAt(r.value.store.versions, k, r.value.clock) == Some(v)
    ensures Conflicts(Contract, Store(map[(k, 1) := Put(v), (k, 2) := Deleted], 2), k, 1)
  {
    hide CommitEvents, SI.Run, DeleteCommitted, SI.NoLostUpdate, ReadAt;
    DeleteCommittedReached(k, v);
    UpdateCommits(k, v);
    var e := [SI.Begin(0), SI.Begin(1), SI.Buffer(0, [Mutation(k, [], true)])];
    var first := e + CommitEvents(0, 1) + [SI.Buffer(1, [Mutation(k, v, false)])];
    RunAppend(Shipped, SI.Start(Store(map[(k, 1) := Put(v)], 1)), first, CommitEvents(1, 1));
    assert LostDeleteRun(k, v) == first + CommitEvents(1, 1);
  }

  function HalfFlushEvents(a: Mutation, b: Mutation): seq<SI.Event> {
    [SI.Begin(0), SI.Buffer(0, [a, b]), SI.AcquireLock(0)] + Repeat(SI.CheckKey, 2)
    + [SI.StartFlush, SI.FlushKey, SI.FlushFails]
  }

  function HalfCommitRun(a: Mutation, b: Mutation, c: Mutation): seq<SI.Event> {
    HalfFlushEvents(a, b) + ([SI.Begin(1), SI.Buffer(1, [c])] + CommitEvents(1, 1)) + [SI.Begin(2)]
  }

  /** Transaction 0 has failed after flushing `a`; the store was empty before. */
  function AfterHalfFlush(a: Mutation, b: Mutation): SI.State {
    SI.Start(Store(map[], 0)).(txns := map[0 := SI.TxnState(1, [a, b], true)],
                               store := Write(Store(map[], 0), a, 2))
  }

  lemma {:induction false} HalfFlushReached(det: Detector, a: Mutation, b: Mutation)
    ensures SI.Run(det, SI.Start(Store(map[], 0)), HalfFlushEvents(a, b)) == Some(AfterHalfFlush(a, b))
  {
    var s := SI.Start(Store(map[], 0));
    var e1 := [SI.Begin(0), SI.Buffer(0, [a, b]), SI.AcquireLock(0)];
    var s1 := s.(txns := map[0 := SI.TxnState(1, [a, b], false)], lock := SI.Checking(0, 0));
    assert SI.Run(det, s, e1) == Some(s1) by {
      RunThree(det, s, e1[0], e1[1], e1[2]);
      assert [] + [a, b] == [a, b];
      assert SI.Run(det, s, e1).value.txns == s1.txns;
    }
    CheckLoop(det, s1, 2);
    RunAppend(det, s, e1, Repeat(SI.CheckKey, 2));
    HalfFlushTail(det, s1.(lock := SI.Checking(0, 2)), a, b);
    RunAppend(det, s, e1 + Repeat(SI.CheckKey, 2), [SI.StartFlush, SI.FlushKey, SI.FlushFails]);
  }

  lemma {:induction false} HalfFlushTail(det: Detector, s: SI.State, a: Mutation, b: Mutation)
    requires s == SI.Start(Store(map[], 0)).(txns := map[0 := SI.TxnState(1, [a, b], false)], lock := SI.Checking(0, 2))
    ensures SI.Run(det, s, [SI.StartFlush, SI.FlushKey, SI.FlushFails]) == Some(AfterHalfFlush(a, b))
  {
    RunThree(det, s, SI.StartFlush, SI.FlushKey, SI.FlushFails);
    assert SI.Step(det, s, SI.StartFlush).value.txns == AfterHalfFlush(a, b).txns;
  }

  lemma {:induction false} CommitAfterHalfFlush(det: Detector, a: Mutation, b: Mutation, c: Mutation)
    requires c.key != a.key
    ensures var s := AfterHalfFlush(a, b);
      var x := SI.TxnState(1, [c], true);
      SI.Run(det, s, [SI.Begin(1), SI.Buffer(1, [c])] + CommitEvents(1, 1)) ==
        Some(s.(store := Write(s.store, c, 2), clock := 2, txns := s.txns[1 := x],
                history := [SI.Commit(2, 1, [c])]))
  {
    var s := AfterHalfFlush(a, b);
    var e := [SI.Begin(1), SI.Buffer(1, [c])];
    var s1 := s.(txns := s.txns[1 := SI.TxnState(1, [c], false)]);
    assert SI.Run(det, s, e) == Some(s1) by {
      RunTwo(det, s, e[0], e[1]);
      assert [] + [c] == [c];
      assert SI.Run(det, s, e).value.txns == s1.txns;
    }
    assert s1.store.versions.Keys == {(a.key, 2)};
    CommitRefinesSteps(det, s1, 1);
    WriteOne(s.store, c, 2);
    RunAppend(det, s, e, CommitEvents(1, 1));
    assert [] + [SI.Commit(2, 1, [c])] == [SI.Commit(2, 1, [c])];
    assert AfterCommit(s1, 1).txns == s.txns[1 := SI.TxnState(1, [c], true)];
  }

  /** A flush that fails after one durable write is published by the next commit, which reuses
      the timestamp: transaction 2 sees `a` of the failed commit and not `b`. */
  lemma {:induction false} PartialFlushShowsHalfACommit(det: Detector, a: Mutation, b: Mutation, c: Mutation)
    requires a.key != b.key && c.key != a.key && c.key != b.key && !a.delete && !b.delete
    ensures var r := SI.Run(det, SI.Start(Store(map[], 0)), HalfCommitRun(a, b, c));
      && r.Some? && r.value.history == [SI.Commit(2, 1, [c])]
      && 2 in r.value.txns && SI.Get(r.value, 2, a.key) == Some(a.value) && SI.Get(r.value, 2, b.key) == None
  {
    var s := SI.Start(Store(map[], 0));
    var e1 := HalfFlushEvents(a, b);
    var e2 := [SI.Begin(1), SI.Buffer(1, [c])] + CommitEvents(1, 1);
    HalfFlushReached(det, a, b);
    CommitAfterHalfFlush(det, a, b, c);
    RunAppend(det, s, e1, e2);
    var s2 := SI.Run(det, s, e1 + e2).value;
    RunOne(det, s2, SI.Begin(2));
    RunAppend(det, s, e1 + e2, [SI.Begin(2)]);
  }
}
