/** The managed-mode store: every key carries timestamped versions, a read at a
    timestamp sees the newest version at or below it (engine/internal/storage/store.go). */
module Versions {
  import opened Bytes

  type Key = Bytes

  /** One buffered write; `Value` is ignored for a delete. */
  datatype Mutation = Mutation(key: Key, value: Bytes, delete: bool)

  datatype Version = Put(value: Bytes) | Deleted

  type VersionMap = map<(Key, nat), Version>

  datatype Store = Store(versions: VersionMap, maxVersion: nat)

  function VersionOf(m: Mutation): Version {
    if m.delete then Deleted else Put(m.value)
  }

  /** Timestamp of the newest version of `k` at or below `ts`. */
  function NewestTs(vs: VersionMap, k: Key, ts: nat): (r: Option<nat>)
    ensures r.Some? ==> r.value <= ts && (k, r.value) in vs
  {
    if (k, ts) in vs then Some(ts) else if ts == 0 then None else NewestTs(vs, k, ts - 1)
  }

  /** `Txn.Get` at a read timestamp: None is ErrKeyNotFound. */
  function ReadAt(vs: VersionMap, k: Key, ts: nat): Option<Bytes> {
    match NewestTs(vs, k, ts)
    case None => None
    case Some(n) => match vs[(k, n)] { case Put(v) => Some(v) case Deleted => None }
  }

  /** Which `LatestVersion` backs the conflict check: the interface contract (a delete is a
      version) or the shipped implementation, which reads the key at MaxVersion and therefore
      reports a key whose newest version is a delete as never written. */
  datatype Detector = Contract | Shipped

  function LatestVersion(det: Detector, st: Store, k: Key): Option<nat> {
    var n := NewestTs(st.versions, k, st.maxVersion);
    if det.Shipped? && n.Some? && st.versions[(k, n.value)].Deleted? then None else n
  }

  /** `found && ts > readTS`. */
  predicate Conflicts(det: Detector, st: Store, k: Key, readTS: nat) {
    var n := LatestVersion(det, st, k);
    n.Some? && n.value > readTS
  }

  ghost predicate AnyConflict(det: Detector, st: Store, muts: seq<Mutation>, readTS: nat) {
    exists i :: 0 <= i < |muts| && Conflicts(det, st, muts[i].key, readTS)
  }

  function Write(st: Store, m: Mutation, ts: nat): Store {
    Store(st.versions[(m.key, ts) := VersionOf(m)], if ts > st.maxVersion then ts else st.maxVersion)
  }

  /** A batch flushed at `ts`, one mutation after another. */
  function WriteAll(st: Store, muts: seq<Mutation>, ts: nat): Store
    decreases |muts|
  {
    if muts == [] then st else Write(WriteAll(st, muts[..|muts| - 1], ts), muts[|muts| - 1], ts)
  }

  ghost predicate WellFormed(st: Store) {
    forall k, ts :: (k, ts) in st.versions ==> ts <= st.maxVersion
  }

  predicate Writes(muts: seq<Mutation>, k: Key) {
    exists i :: 0 <= i < |muts| && muts[i].key == k
  }

  /** The last mutation of `k` in a buffer: the one a read must see and a flush must leave. */
  function LastWrite(muts: seq<Mutation>, k: Key): (r: Option<Mutation>)
    ensures r.Some? <==> Writes(muts, k)
    ensures r.Some? ==> r.value.key == k && r.value in muts
    decreases |muts|
  {
    if muts == [] then None
    else
      var n := |muts| - 1;
      if muts[n].key == k then Some(muts[n])
      else
        var r := LastWrite(muts[..n], k);
        assert forall i :: 0 <= i < n ==> muts[..n][i] == muts[i];
        r
  }

  /** What a reader sees of `k` when `muts` is laid over `below`. */
  function Overlay(muts: seq<Mutation>, k: Key, below: Option<Bytes>): Option<Bytes> {
    match LastWrite(muts, k)
    case Some(m) => if m.delete then None else Some(m.value)
    case None => below
  }

  lemma {:induction false} LastWriteIsWrite(muts: seq<Mutation>, k: Key)
    requires LastWrite(muts, k).Some?
    ensures LastWrite(muts, k).value in muts && LastWrite(muts, k).value.key == k
    decreases |muts|
  {
    if muts != [] && muts[|muts| - 1].key != k { LastWriteIsWrite(muts[..|muts| - 1], k); }
  }

  lemma {:induction false} LastWriteAppend(a: seq<Mutation>, b: seq<Mutation>, k: Key)
    ensures LastWrite(a + b, k) == if LastWrite(b, k).Some? then LastWrite(b, k) else LastWrite(a, k)
    ensures Writes(a + b, k) <==> Writes(a, k) || Writes(b, k)
    decreases |b|
  {
    if b == [] {
      assert a + b == a;
    } else {
      var n := |b| - 1;
      LastWriteAppend(a, b[..n], k);
      assert (a + b)[..|a + b| - 1] == a + b[..n] && (a + b)[|a + b| - 1] == b[n];
    }
  }

  lemma {:induction false} OverlayAppend(a: seq<Mutation>, b: seq<Mutation>, k: Key, below: Option<Bytes>)
    ensures Overlay(a + b, k, below) == Overlay(b, k, Overlay(a, k, below))
  {
    hide LastWrite;
    LastWriteAppend(a, b, k);
  }

  lemma {:induction false} OverlaySnoc(muts: seq<Mutation>, m: Mutation, k: Key, below: Option<Bytes>)
    ensures Overlay(muts + [m], k, below) ==
      if m.key == k then (if m.delete then None else Some(m.value)) else Overlay(muts, k, below)
  {
    assert (muts + [m])[..|muts|] == muts;
  }

  // ---- Reads ----

  lemma {:induction false} ReadUnwritten(vs: VersionMap, k: Key, ts: nat)
    requires forall m :: (k, m) !in vs
    ensures ReadAt(vs, k, ts) == None
  {
    if ts > 0 { ReadUnwritten(vs, k, ts - 1); }
  }

  lemma {:induction false} NewestTsIs(vs: VersionMap, k: Key, ts: nat, n: nat)
    requires n <= ts && (k, n) in vs
    requires forall m: nat :: n < m <= ts ==> (k, m) !in vs
    ensures NewestTs(vs, k, ts) == Some(n)
  {
    if ts != n { NewestTsIs(vs, k, ts - 1, n); }
  }

  /** The newest version is at least every version at or below the read timestamp. */
  lemma {:induction false} NewestTsBound(vs: VersionMap, k: Key, ts: nat)
    ensures forall m: nat :: m <= ts && (k, m) in vs ==> NewestTs(vs, k, ts).Some? && m <= NewestTs(vs, k, ts).value
  {
    if (k, ts) !in vs && ts > 0 { NewestTsBound(vs, k, ts - 1); }
  }

  /** A read depends only on the versions at or below its timestamp. */
  lemma {:induction false} ReadAtFrame(vs: VersionMap, ws: VersionMap, k: Key, ts: nat)
    requires forall m: nat :: m <= ts ==> ((k, m) in vs <==> (k, m) in ws)
    requires forall m: nat :: m <= ts && (k, m) in vs && (k, m) in ws ==> vs[(k, m)] == ws[(k, m)]
    ensures NewestTs(vs, k, ts) == NewestTs(ws, k, ts)
    ensures ReadAt(vs, k, ts) == ReadAt(ws, k, ts)
  {
    if (k, ts) !in vs && ts > 0 { ReadAtFrame(vs, ws, k, ts - 1); }
  }

  /** Timestamps with no version of the key in between read the same. */
  lemma {:induction false} ReadAtGap(vs: VersionMap, k: Key, lo: nat, hi: nat)
    requires lo <= hi
    requires forall m: nat :: lo < m <= hi ==> (k, m) !in vs
    ensures NewestTs(vs, k, hi) == NewestTs(vs, k, lo)
    ensures ReadAt(vs, k, hi) == ReadAt(vs, k, lo)
  {
    if lo < hi { ReadAtGap(vs, k, lo, hi - 1); }
  }

  // ---- Batches ----

  /** Exactly the batch's keys, at the batch's timestamp, with their last mutation. */
  lemma {:induction false} WriteAllContents(st: Store, muts: seq<Mutation>, ts: nat)
    ensures forall p ::
      p in WriteAll(st, muts, ts).versions <==> p in st.versions || (p.1 == ts && Writes(muts, p.0))
    ensures forall p :: p in WriteAll(st, muts, ts).versions ==>
      WriteAll(st, muts, ts).versions[p] ==
        if p.1 == ts && Writes(muts, p.0) then VersionOf(LastWrite(muts, p.0).value) else st.versions[p]
    ensures WriteAll(st, muts, ts).maxVersion ==
      if muts != [] && ts > st.maxVersion then ts else st.maxVersion
    decreases |muts|
  {
    if muts != [] {
      var n := |muts| - 1;
      WriteAllContents(st, muts[..n], ts);
      assert forall i :: 0 <= i < n ==> muts[..n][i] == muts[i];
      forall k ensures Writes(muts, k) <==> muts[n].key == k || Writes(muts[..n], k) {
        WritesSnoc(muts, k);
      }
    }
  }

  lemma {:induction false} WriteOne(st: Store, m: Mutation, ts: nat)
    ensures WriteAll(st, [m], ts) == Write(st, m, ts)
  {
    assert [m][..0] == [];
  }

  lemma {:induction false} WritesSnoc(muts: seq<Mutation>, k: Key)
    requires muts != []
    ensures Writes(muts, k) <==> muts[|muts| - 1].key == k || Writes(muts[..|muts| - 1], k)
  {
    var n := |muts| - 1;
    if Writes(muts[..n], k) {
      var i :| 0 <= i < n && muts[..n][i].key == k;
      assert muts[i].key == k;
    }
    if Writes(muts, k) && muts[n].key != k {
      var i :| 0 <= i < |muts| && muts[i].key == k;
      assert muts[..n][i].key == k;
    }
  }

  /** A batch newer than every version of its keys reads back as the batch laid over the old state. */
  lemma {:induction false} ReadAfterWriteAll(st: Store, muts: seq<Mutation>, ts: nat, k: Key, at: nat)
    requires WellFormed(st) && st.maxVersion < ts <= at
    ensures ReadAt(WriteAll(st, muts, ts).versions, k, at) == Overlay(muts, k, ReadAt(st.versions, k, at))
  {
    WriteAllContents(st, muts, ts);
    var vs := WriteAll(st, muts, ts).versions;
    if Writes(muts, k) {
      NewestTsIs(vs, k, at, ts);
    } else {
      ReadAtFrame(vs, st.versions, k, at);
    }
  }

  /** A commit at the next timestamp reads back as the batch laid over the state before it. */
  lemma {:induction false} ReadAfterCommit(st: Store, muts: seq<Mutation>, clock: nat, k: Key)
    requires WellFormed(st) && st.maxVersion <= clock
    ensures ReadAt(WriteAll(st, muts, clock + 1).versions, k, clock + 1) ==
      Overlay(muts, k, ReadAt(st.versions, k, clock))
  {
    ReadAfterWriteAll(st, muts, clock + 1, k, clock + 1);
    ReadAtGap(st.versions, k, clock, clock + 1);
  }

  /** A batch at `ts` is invisible below `ts`. */
  lemma {:induction false} ReadBelowWriteAll(st: Store, muts: seq<Mutation>, ts: nat, k: Key, at: nat)
    requires at < ts
    ensures ReadAt(WriteAll(st, muts, ts).versions, k, at) == ReadAt(st.versions, k, at)
  {
    WriteAllContents(st, muts, ts);
    ReadAtFrame(WriteAll(st, muts, ts).versions, st.versions, k, at);
  }

  /** Under the contract, no conflict means no version of the key is newer than the snapshot. */
  lemma {:induction false} ContractConflict(st: Store, k: Key, readTS: nat)
    requires WellFormed(st)
    ensures Conflicts(Contract, st, k, readTS) <==> exists m: nat :: m > readTS && (k, m) in st.versions
  {
    NewestTsBound(st.versions, k, st.maxVersion);
  }

  /** The shipped check is the contract's check minus the keys whose newest version is a delete. */
  lemma {:induction false} ShippedConflict(st: Store, k: Key, readTS: nat)
    ensures Conflicts(Shipped, st, k, readTS) <==>
      Conflicts(Contract, st, k, readTS) && ReadAt(st.versions, k, st.maxVersion).Some?
  {
  }
}
