/** The replicated state machine (engine/internal/consensus/statemachine.go) and its proposal codec
    (engine/internal/consensus/codec.go): every replica repeats the conflict check and applies an
    accepted batch at its Raft index. */
module Replication {
  import opened Bytes
  import opened Versions

  datatype LogEntry = LogEntry(index: nat, readTS: nat, muts: seq<Mutation>)

  /** `noConflictReadTS`: no commit timestamp can exceed it. */
  const NO_CONFLICT_READ_TS: nat := 0xFFFF_FFFF_FFFF_FFFF

  const RESULT_ABORTED: nat := 0

  ghost function Apply(det: Detector, st: Store, e: LogEntry): Store {
    if AnyConflict(det, st, e.muts, e.readTS) then st else WriteAll(st, e.muts, e.index)
  }

  ghost function Outcome(det: Detector, st: Store, e: LogEntry): nat {
    if AnyConflict(det, st, e.muts, e.readTS) then RESULT_ABORTED else e.index
  }

  ghost function ApplyLog(det: Detector, st: Store, log: seq<LogEntry>): Store
    decreases |log|
  {
    if log == [] then st else Apply(det, ApplyLog(det, st, log[..|log| - 1]), log[|log| - 1])
  }

  /** Raft indices start above everything already in the store and increase; a proposal's
      snapshot is older than its index unless it carries the marker. */
  ghost predicate LogOk(base: Store, log: seq<LogEntry>) {
    && WellFormed(base)
    && (forall i :: 0 <= i < |log| ==> base.maxVersion < log[i].index <= NO_CONFLICT_READ_TS)
    && (forall i, j :: 0 <= i < j < |log| ==> log[i].index < log[j].index)
    && (forall i :: 0 <= i < |log| ==> log[i].readTS < log[i].index || log[i].readTS == NO_CONFLICT_READ_TS)
  }

  lemma {:induction false} LogOkPrefix(base: Store, log: seq<LogEntry>, n: nat)
    requires LogOk(base, log) && n <= |log|
    ensures LogOk(base, log[..n])
  {
  }

  lemma {:induction false} LogIndex(base: Store, log: seq<LogEntry>, i: nat)
    requires LogOk(base, log) && i < |log|
    ensures base.maxVersion < log[i].index <= log[|log| - 1].index
    ensures |log| > 1 ==> log[|log| - 2].index < log[|log| - 1].index
  {
  }

  /** Entry `i` was accepted when the log was first applied. */
  ghost predicate Accepted(det: Detector, base: Store, log: seq<LogEntry>, i: nat)
    requires i < |log|
  {
    !AnyConflict(det, ApplyLog(det, base, log[..i]), log[i].muts, log[i].readTS)
  }

  // ---- What the applied log contains ----

  lemma {:induction false} AppliedShape(det: Detector, base: Store, log: seq<LogEntry>)
    requires LogOk(base, log)
    ensures var st := ApplyLog(det, base, log);
      && WellFormed(st) && base.maxVersion <= st.maxVersion
      && st.maxVersion <= if log == [] then base.maxVersion else log[|log| - 1].index
    decreases |log|
  {
    if log != [] {
      var n := |log| - 1;
      LogOkPrefix(base, log, n);
      AppliedShape(det, base, log[..n]);
      WriteAllContents(ApplyLog(det, base, log[..n]), log[n].muts, log[n].index);
    }
  }

  /** `st'` keeps every version of `st`; what it adds lies at or above `index`. */
  ghost predicate GrowsFrom(st: Store, st': Store, index: nat) {
    && st.maxVersion <= st'.maxVersion
    && (forall p :: p in st.versions ==> p in st'.versions)
    && (forall p :: p in st.versions && p in st'.versions ==> st'.versions[p] == st.versions[p])
    && (forall p :: p in st'.versions && p !in st.versions ==> p.1 >= index)
  }

  lemma {:induction false} ApplyGrows(det: Detector, st: Store, e: LogEntry, index: nat)
    requires WellFormed(st) && st.maxVersion < e.index && index <= e.index
    ensures GrowsFrom(st, Apply(det, st, e), index)
  {
    WriteAllContents(st, e.muts, e.index);
    assert forall p :: p in st.versions ==> (p.0, p.1) in st.versions;
  }

  lemma {:induction false} AppliedGrows(det: Detector, base: Store, log: seq<LogEntry>, i: nat)
    requires LogOk(base, log) && i <= |log|
    ensures GrowsFrom(ApplyLog(det, base, log[..i]), ApplyLog(det, base, log), if i < |log| then log[i].index else 0)
    ensures i == |log| ==> ApplyLog(det, base, log[..i]) == ApplyLog(det, base, log)
    decreases |log|
  {
    if i == |log| {
      assert log[..i] == log;
    } else {
      hide Apply, LogOk;
      var n := |log| - 1;
      LogOkPrefix(base, log, n);
      assert log[..n][..i] == log[..i];
      AppliedGrows(det, base, log[..n], i);
      AppliedShape(det, base, log[..n]);
      assert n != i ==> log[..n][i] == log[i];
      LogIndex(base, log, i);
      ApplyGrows(det, ApplyLog(det, base, log[..n]), log[n], log[i].index);
    }
  }

  /** The versions at an entry's index are its own writes, and they are there iff it was accepted. */
  lemma {:induction false} EntryVersions(det: Detector, base: Store, log: seq<LogEntry>, i: nat, k: Key)
    requires LogOk(base, log) && i < |log|
    ensures var st := ApplyLog(det, base, log);
      && ((k, log[i].index) in st.versions <==> Accepted(det, base, log, i) && Writes(log[i].muts, k))
      && ((k, log[i].index) in st.versions ==>
          st.versions[(k, log[i].index)] == VersionOf(LastWrite(log[i].muts, k).value))
      && (Accepted(det, base, log, i) && log[i].muts != [] ==> log[i].index <= st.maxVersion)
  {
    var before := ApplyLog(det, base, log[..i]);
    LogOkPrefix(base, log, i);
    AppliedShape(det, base, log[..i]);
    assert log[..i + 1][..i] == log[..i];
    WriteAllContents(before, log[i].muts, log[i].index);
    AppliedGrows(det, base, log, i + 1);
  }

  // ---- Replay ----

  /** Writing a batch again over its own versions changes nothing. */
  lemma {:induction false} RewriteIsNoOp(st: Store, muts: seq<Mutation>, ts: nat)
    requires muts != [] ==> ts <= st.maxVersion
    requires forall k :: Writes(muts, k) ==>
      (k, ts) in st.versions && st.versions[(k, ts)] == VersionOf(LastWrite(muts, k).value)
    ensures WriteAll(st, muts, ts) == st
  {
    WriteAllContents(st, muts, ts);
    var r := WriteAll(st, muts, ts);
    forall p ensures p in r.versions <==> p in st.versions { assert p == (p.0, p.1); }
    forall p | p in st.versions ensures r.versions[p] == st.versions[p] { assert p == (p.0, p.1); }
    assert r.versions == st.versions;
  }

  lemma {:induction false} NewestPersists(st: Store, st': Store, k: Key, readTS: nat)
    requires WellFormed(st) && WellFormed(st')
    requires forall m :: (k, m) in st.versions ==> (k, m) in st'.versions
    requires Conflicts(Contract, st, k, readTS)
    ensures Conflicts(Contract, st', k, readTS)
  {
    ContractConflict(st, k, readTS);
    ContractConflict(st', k, readTS);
  }

  /** An entry that was aborted and whose conflicting keys were deleted since: the shipped check
      no longer sees the conflict. */
  ghost predicate Revives(det: Detector, base: Store, log: seq<LogEntry>, i: nat)
    requires i < |log|
  {
    !Accepted(det, base, log, i) && !AnyConflict(det, ApplyLog(det, base, log), log[i].muts, log[i].readTS)
  }

  lemma {:induction false} ContractNeverRevives(base: Store, log: seq<LogEntry>, i: nat)
    requires LogOk(base, log) && i < |log|
    ensures !Revives(Contract, base, log, i)
  {
    if !Accepted(Contract, base, log, i) {
      var before, st := ApplyLog(Contract, base, log[..i]), ApplyLog(Contract, base, log);
      var j :| 0 <= j < |log[i].muts| && Conflicts(Contract, before, log[i].muts[j].key, log[i].readTS);
      LogOkPrefix(base, log, i);
      AppliedShape(Contract, base, log[..i]);
      AppliedShape(Contract, base, log);
      AppliedGrows(Contract, base, log, i);
      NewestPersists(before, st, log[i].muts[j].key, log[i].readTS);
    }
  }

  /** Re-applying one entry of an applied log is a no-op exactly when it does not revive. */
  lemma {:induction false} ReapplyEntry(det: Detector, base: Store, log: seq<LogEntry>, i: nat)
    requires LogOk(base, log) && i < |log|
    ensures Apply(det, ApplyLog(det, base, log), log[i]) == ApplyLog(det, base, log) <==> !Revives(det, base, log, i)
  {
    var st := ApplyLog(det, base, log);
    var e := log[i];
    if Accepted(det, base, log, i) {
      forall k ensures Writes(e.muts, k) ==>
        (k, e.index) in st.versions && st.versions[(k, e.index)] == VersionOf(LastWrite(e.muts, k).value)
        ensures e.muts != [] ==> e.index <= st.maxVersion
      {
        EntryVersions(det, base, log, i, k);
      }
      EntryVersions(det, base, log, i, []);
      RewriteIsNoOp(st, e.muts, e.index);
    } else if Revives(det, base, log, i) {
      var j :| 0 <= j < |e.muts| && Conflicts(det, ApplyLog(det, base, log[..i]), e.muts[j].key, e.readTS);
      EntryVersions(det, base, log, i, e.muts[j].key);
      WriteAllContents(st, e.muts, e.index);
      assert Writes(e.muts, e.muts[j].key);
      assert (e.muts[j].key, e.index) in Apply(det, st, e).versions;
    }
  }

  lemma {:induction false} ReapplyKeys(det: Detector, base: Store, log: seq<LogEntry>, i: nat)
    requires LogOk(base, log) && i < |log| && Revives(det, base, log, i)
    ensures var st := ApplyLog(det, base, log); !(Apply(det, st, log[i]).versions.Keys <= st.versions.Keys)
  {
    var st := ApplyLog(det, base, log);
    var e := log[i];
    var j :| 0 <= j < |e.muts| && Conflicts(det, ApplyLog(det, base, log[..i]), e.muts[j].key, e.readTS);
    EntryVersions(det, base, log, i, e.muts[j].key);
    WriteAllContents(st, e.muts, e.index);
    assert Writes(e.muts, e.muts[j].key);
    assert (e.muts[j].key, e.index) in Apply(det, st, e).versions.Keys;
  }

  /** Re-applying `log[..n]`, one entry at a time. */
  lemma {:induction false} ReapplySnoc(det: Detector, st: Store, log: seq<LogEntry>, n: nat)
    requires 0 < n <= |log|
    ensures ApplyLog(det, st, log[..n]) == Apply(det, ApplyLog(det, st, log[..n - 1]), log[n - 1])
    ensures ApplyLog(det, st, log[..n - 1]).versions.Keys <= ApplyLog(det, st, log[..n]).versions.Keys
  {
    assert log[..n][..n - 1] == log[..n - 1] && log[..n][n - 1] == log[n - 1];
    WriteAllContents(ApplyLog(det, st, log[..n - 1]), log[n - 1].muts, log[n - 1].index);
  }

  /** Log replay after a restart: re-applying a prefix of an already applied log leaves the version
      store unchanged if and only if no entry of the prefix revives. */
  lemma {:induction false} ReplayUnchangedIff(det: Detector, base: Store, log: seq<LogEntry>, n: nat)
    requires LogOk(base, log) && n <= |log|
    ensures ApplyLog(det, ApplyLog(det, base, log), log[..n]) == ApplyLog(det, base, log) <==>
      forall i :: 0 <= i < n ==> !Revives(det, base, log, i)
  {
    if i :| 0 <= i < n && Revives(det, base, log, i) {
      RevivedStays(det, base, log, n, i);
    } else {
      ReplayUnchanged(det, base, log, n);
    }
  }

  lemma {:induction false} ReplayUnchanged(det: Detector, base: Store, log: seq<LogEntry>, n: nat)
    requires LogOk(base, log) && n <= |log|
    requires forall i :: 0 <= i < n ==> !Revives(det, base, log, i)
    ensures ApplyLog(det, ApplyLog(det, base, log), log[..n]) == ApplyLog(det, base, log)
    decreases n
  {
    if n == 0 {
      assert log[..0] == [];
    } else {
      ReplayUnchanged(det, base, log, n - 1);
      ReapplySnoc(det, ApplyLog(det, base, log), log, n);
      ReapplyEntry(det, base, log, n - 1);
    }
  }

  /** The first reviving entry adds versions, and nothing after it removes any. */
  lemma {:induction false} RevivedStays(det: Detector, base: Store, log: seq<LogEntry>, n: nat, i: nat)
    requires LogOk(base, log) && i < n <= |log| && Revives(det, base, log, i)
    ensures var st := ApplyLog(det, base, log); !(ApplyLog(det, st, log[..n]).versions.Keys <= st.versions.Keys)
    decreases n
  {
    ReapplySnoc(det, ApplyLog(det, base, log), log, n);
    if i < n - 1 {
      RevivedStays(det, base, log, n - 1, i);
    } else if j :| 0 <= j < i && Revives(det, base, log, j) {
      RevivedStays(det, base, log, n - 1, j);
    } else {
      ReplayUnchanged(det, base, log, n - 1);
      ReapplyKeys(det, base, log, n - 1);
    }
  }

  /** Under the LatestVersion contract replay is always idempotent. */
  lemma {:induction false} ReplayIsIdempotent(base: Store, log: seq<LogEntry>, n: nat)
    requires LogOk(base, log) && n <= |log|
    ensures ApplyLog(Contract, ApplyLog(Contract, base, log), log[..n]) == ApplyLog(Contract, base, log)
  {
    forall i | 0 <= i < n ensures !Revives(Contract, base, log, i) {
      ContractNeverRevives(base, log, i);
    }
    ReplayUnchangedIff(Contract, base, log, n);
  }

  // ---- Replicas ----

  /** Two replicas that have applied different amounts of the log agree on every snapshot both
      can serve: reads below the first index one of them is missing. */
  lemma {:induction false} ReplicasAgreeOnSnapshots(det: Detector, base: Store, log: seq<LogEntry>, i: nat, k: Key,
                                                    ts: nat)
    requires LogOk(base, log) && i <= |log|
    requires i < |log| ==> ts < log[i].index
    ensures ReadAt(ApplyLog(det, base, log[..i]).versions, k, ts) == ReadAt(ApplyLog(det, base, log).versions, k, ts)
  {
    AppliedGrows(det, base, log, i);
    ReadAtFrame(ApplyLog(det, base, log[..i]).versions, ApplyLog(det, base, log).versions, k, ts);
  }

  /** Two accepted entries write `k`, and the later one had not seen the earlier. */
  ghost predicate LosesUpdate(det: Detector, base: Store, log: seq<LogEntry>, i: nat, j: nat, k: Key) {
    && i < j < |log| && Accepted(det, base, log, i) && Accepted(det, base, log, j)
    && Writes(log[i].muts, k) && Writes(log[j].muts, k) && log[j].readTS < log[i].index
  }

  /** Accepted entry `j` writes `k`, whose newest version is a delete the log made after its snapshot. */
  ghost predicate OverNewerDelete(det: Detector, base: Store, log: seq<LogEntry>, j: nat, k: Key)
    requires j < |log|
  {
    var st := ApplyLog(det, base, log[..j]);
    var n := NewestTs(st.versions, k, st.maxVersion);
    && Accepted(det, base, log, j) && Writes(log[j].muts, k)
    && n.Some? && n.value > log[j].readTS && n.value > base.maxVersion && st.versions[(k, n.value)].Deleted?
  }

  /** Every version above the starting store is some accepted entry's. */
  lemma {:induction false} VersionFromLog(det: Detector, base: Store, log: seq<LogEntry>, k: Key, ts: nat)
    requires LogOk(base, log) && (k, ts) in ApplyLog(det, base, log).versions && ts > base.maxVersion
    ensures exists i :: 0 <= i < |log| && log[i].index == ts && Accepted(det, base, log, i) && Writes(log[i].muts, k)
    decreases |log|
  {
    hide AnyConflict;
    if log != [] {
      var n := |log| - 1;
      LogOkPrefix(base, log, n);
      var st := ApplyLog(det, base, log[..n]);
      WriteAllContents(st, log[n].muts, log[n].index);
      if (k, ts) in st.versions {
        VersionFromLog(det, base, log[..n], k, ts);
        var i :| 0 <= i < n && log[..n][i].index == ts && Accepted(det, base, log[..n], i) &&
          Writes(log[..n][i].muts, k);
        assert log[..n][..i] == log[..i] && log[..n][i] == log[i];
      } else {
        assert log[n].index == ts && Accepted(det, base, log, n) && Writes(log[n].muts, k);
      }
    }
  }

  /** What an accepted entry's own check says of a key it writes. */
  lemma {:induction false} AcceptedKey(det: Detector, base: Store, log: seq<LogEntry>, j: nat, k: Key)
    requires j < |log| && Accepted(det, base, log, j) && Writes(log[j].muts, k)
    ensures !Conflicts(det, ApplyLog(det, base, log[..j]), k, log[j].readTS)
  {
    var m :| 0 <= m < |log[j].muts| && log[j].muts[m].key == k;
  }

  lemma {:induction false} LostUnderDelete(det: Detector, base: Store, log: seq<LogEntry>, i: nat, j: nat, k: Key)
    requires LogOk(base, log) && LosesUpdate(det, base, log, i, j, k)
    ensures det.Shipped? && OverNewerDelete(det, base, log, j, k)
  {
    hide AnyConflict, ApplyLog;
    var st := ApplyLog(det, base, log[..j]);
    LogOkPrefix(base, log, j);
    assert log[..j][..i] == log[..i] && log[..j][i] == log[i];
    EntryVersions(det, base, log[..j], i, k);
    NewestTsBound(st.versions, k, st.maxVersion);
    AcceptedKey(det, base, log, j, k);
  }

  /** First committer wins through the log: an accepted entry loses an earlier accepted write of a key it
      writes if and only if, under the shipped check, it goes over a delete newer than its snapshot. */
  lemma {:induction false} LogLosesUpdateIff(det: Detector, base: Store, log: seq<LogEntry>, j: nat, k: Key)
    requires LogOk(base, log) && j < |log|
    ensures (exists i :: LosesUpdate(det, base, log, i, j, k)) <==>
      det.Shipped? && OverNewerDelete(det, base, log, j, k)
  {
    hide AnyConflict, ApplyLog, LogOk;
    if exists i :: LosesUpdate(det, base, log, i, j, k) {
      var i :| LosesUpdate(det, base, log, i, j, k);
      LostUnderDelete(det, base, log, i, j, k);
    }
    if det.Shipped? && OverNewerDelete(det, base, log, j, k) {
      var st := ApplyLog(det, base, log[..j]);
      var n := NewestTs(st.versions, k, st.maxVersion).value;
      LogOkPrefix(base, log, j);
      VersionFromLog(det, base, log[..j], k, n);
      var i :| 0 <= i < j && log[..j][i].index == n && Accepted(det, base, log[..j], i) && Writes(log[..j][i].muts, k);
      assert log[..j][..i] == log[..i] && log[..j][i] == log[i];
      assert LosesUpdate(det, base, log, i, j, k);
    }
  }

  // ---- The state machine object ----

  class StateMachine {
    const detector: Detector
    var store: Store
    var lastApplied: nat

    constructor (detector: Detector, store: Store)
      ensures this.detector == detector && this.store == store && lastApplied == 0
    {
      this.detector := detector;
      this.store := store;
      lastApplied := 0;
    }

    /** None is the decode error, on which nothing changes. */
    method Update(index: nat, cmd: Bytes) returns (r: Option<nat>)
      modifies this
      ensures Unmarshal(cmd).None? ==> r == None && store == old(store) && lastApplied == old(lastApplied)
      ensures Unmarshal(cmd).Some? ==>
        var e := LogEntry(index, Unmarshal(cmd).value.0, Unmarshal(cmd).value.1);
        && store == Apply(detector, old(store), e)
        && r == Some(Outcome(detector, old(store), e))
        && lastApplied == index
    {
      var p := UnmarshalProposal(cmd);
      if p.None? { return None; }
      var readTS, muts := p.value.0, p.value.1;
      ghost var before := store;
      var i := 0;
      while i < |muts|
        invariant 0 <= i <= |muts|
        invariant forall j :: 0 <= j < i ==> !Conflicts(detector, store, muts[j].key, readTS)
        invariant store == old(store)
      {
        var latest := LatestVersion(detector, store, muts[i].key);
        if latest.Some? && latest.value > readTS {
          lastApplied := index;
          return Some(RESULT_ABORTED);
        }
        i := i + 1;
      }
      i := 0;
      assert muts[..0] == [];
      while i < |muts|
        invariant 0 <= i <= |muts|
        invariant store == WriteAll(before, muts[..i], index)
      {
        assert muts[..i + 1][..i] == muts[..i];
        store := Write(store, muts[i], index);
        i := i + 1;
      }
      assert muts[..i] == muts;
      lastApplied := index;
      return Some(index);
    }
  }

  // ---- The proposal codec ----

  function MarshalMutation(m: Mutation): Bytes {
    [if m.delete then 1 else 0] + BigEndian(|m.key| % 0x1_0000_0000, 4) + m.key
    + BigEndian(|m.value| % 0x1_0000_0000, 4) + m.value
  }

  function MarshalMutations(muts: seq<Mutation>): Bytes
    decreases |muts|
  {
    if muts == [] then [] else MarshalMutations(muts[..|muts| - 1]) + MarshalMutation(muts[|muts| - 1])
  }

  method AppendMutation(out: Bytes, m: Mutation) returns (r: Bytes)
    ensures r == out + MarshalMutation(m)
  {
    r := out + [if m.delete then 1 else 0];
    r := r + BigEndian(|m.key| % 0x1_0000_0000, 4);
    r := r + m.key;
    r := r + BigEndian(|m.value| % 0x1_0000_0000, 4);
    r := r + m.value;
  }

  method MarshalProposal(readTS: nat, muts: seq<Mutation>) returns (out: Bytes)
    ensures out == Marshal(readTS, muts)
  {
    hide BigEndian, MarshalMutation;
    out := BigEndian(readTS, 8);
    out := out + BigEndian(|muts| % 0x1_0000_0000, 4);
    ghost var header := out;
    var i := 0;
    while i < |muts|
      invariant 0 <= i <= |muts|
      invariant out == header + MarshalMutations(muts[..i])
    {
      assert muts[..i + 1][..i] == muts[..i];
      out := AppendMutation(out, muts[i]);
      i := i + 1;
    }
    assert muts[..i] == muts;
  }

  function Marshal(readTS: nat, muts: seq<Mutation>): Bytes {
    BigEndian(readTS, 8) + BigEndian(|muts| % 0x1_0000_0000, 4) + MarshalMutations(muts)
  }

  /** One mutation at the head of `b`, and the rest. */
  function UnmarshalMutation(b: Bytes): (r: Option<(Mutation, Bytes)>)
    ensures r.Some? ==> |r.value.1| < |b|
  {
    if |b| < 5 then None
    else
      var klen := FromBigEndian(b[1..5]);
      if 5 + klen + 4 > |b| then None
      else
        var vlen := FromBigEndian(b[5 + klen..9 + klen]);
        if 9 + klen + vlen > |b| then None
        else Some((Mutation(b[5..5 + klen], b[9 + klen..9 + klen + vlen], b[0] == 1), b[9 + klen + vlen..]))
  }

  function UnmarshalMutations(b: Bytes, n: nat): Option<seq<Mutation>>
    decreases n
  {
    if n == 0 then Some([])
    else match UnmarshalMutation(b)
      case None => None
      case Some(h) => match UnmarshalMutations(h.1, n - 1) {
        case None => None
        case Some(t) => Some([h.0] + t)
      }
  }

  function Unmarshal(b: Bytes): Option<(nat, seq<Mutation>)> {
    if |b| < 12 then None
    else match UnmarshalMutations(b[12..], FromBigEndian(b[8..12]))
      case None => None
      case Some(ms) => Some((FromBigEndian(b[..8]), ms))
  }

  /** One mutation at `pos`, with the bounds checks in the order the decoder makes them. */
  method UnmarshalOne(b: Bytes, pos: nat) returns (r: Option<(Mutation, nat)>)
    requires pos <= |b|
    ensures r.Some? <==> UnmarshalMutation(b[pos..]).Some?
    ensures r.Some? ==> pos < r.value.1 <= |b| && UnmarshalMutation(b[pos..]).value == (r.value.0, b[r.value.1..])
  {
    ghost var rest := b[pos..];
    if pos + 1 + 4 > |b| { return None; }
    var del := b[pos] == 1;
    assert rest[1..5] == b[pos + 1..pos + 5];
    var klen := FromBigEndian(b[pos + 1..pos + 5]);
    if pos + 5 + klen + 4 > |b| { return None; }
    var key := b[pos + 5..pos + 5 + klen];
    assert rest[5..5 + klen] == key && rest[5 + klen..9 + klen] == b[pos + 5 + klen..pos + 9 + klen];
    var vlen := FromBigEndian(b[pos + 5 + klen..pos + 9 + klen]);
    if pos + 9 + klen + vlen > |b| { return None; }
    var val := b[pos + 9 + klen..pos + 9 + klen + vlen];
    assert rest[9 + klen..9 + klen + vlen] == val;
    assert rest[9 + klen + vlen..] == b[pos + 9 + klen + vlen..];
    return Some((Mutation(key, val, del), pos + 9 + klen + vlen));
  }

  method UnmarshalProposal(b: Bytes) returns (r: Option<(nat, seq<Mutation>)>)
    ensures r == Unmarshal(b)
  {
    if |b| < 12 { return None; }
    var readTS := FromBigEndian(b[..8]);
    var n := FromBigEndian(b[8..12]);
    var pos := 12;
    var out: seq<Mutation> := [];
    var i := 0;
    assert forall t: seq<Mutation> :: out + t == t;
    while i < n
      invariant 0 <= i <= n && 12 <= pos <= |b|
      invariant UnmarshalMutations(b[12..], n) ==
        match UnmarshalMutations(b[pos..], n - i) { case None => None case Some(t) => Some(out + t) }
    {
      var one := UnmarshalOne(b, pos);
      if one.None? { return None; }
      ghost var before := out;
      out := out + [one.value.0];
      pos := one.value.1;
      i := i + 1;
      assert forall t: seq<Mutation> :: before + ([one.value.0] + t) == out + t;
    }
    assert out + [] == out;
    return Some((readTS, out));
  }

  ghost predicate Encodable(muts: seq<Mutation>) {
    && |muts| < 0x1_0000_0000
    && forall m :: m in muts ==> |m.key| < 0x1_0000_0000 && |m.value| < 0x1_0000_0000
  }

  lemma {:induction false} Pow256Values()
    ensures Pow256(4) == 0x1_0000_0000 && Pow256(8) == 0x1_0000_0000_0000_0000
  {
    assert Pow256(1) == 256 && Pow256(2) == 0x1_0000 && Pow256(3) == 0x100_0000;
    assert Pow256(4) == 0x1_0000_0000 && Pow256(5) == 0x100_0000_0000 && Pow256(6) == 0x1_0000_0000_0000;
    assert Pow256(7) == 0x100_0000_0000_0000;
  }

  /** Where the fields of a marshalled mutation lie. */
  lemma {:induction false} FieldsAt(flag: Bytes, kl: Bytes, key: Bytes, vl: Bytes, val: Bytes, tail: Bytes)
    requires |flag| == 1 && |kl| == 4 && |vl| == 4
    ensures var b, n := flag + kl + key + vl + val + tail, 5 + |key|;
      && |b| >= n + 4 + |val| && b[0] == flag[0] && b[1..5] == kl && b[5..n] == key && b[n..n + 4] == vl
      && b[n + 4..n + 4 + |val|] == val && b[n + 4 + |val|..] == tail
  {
    var b, n := flag + kl + key + vl + val + tail, 5 + |key|;
    var head, rest := flag + kl + key, vl + val + tail;
    assert b == head + rest && b[n..] == rest;
    assert b[5..n] == head[5..] == key;
    assert rest[..4] == vl && rest[4..4 + |val|] == val && rest[4 + |val|..] == tail;
  }

  lemma {:induction false} MutationRoundTrip(m: Mutation, tail: Bytes)
    requires |m.key| < 0x1_0000_0000 && |m.value| < 0x1_0000_0000
    ensures UnmarshalMutation(MarshalMutation(m) + tail) == Some((m, tail))
  {
    hide BigEndian, FromBigEndian;
    Pow256Values();
    BigEndianRoundTrip(|m.key|, 4);
    BigEndianRoundTrip(|m.value|, 4);
    FieldsAt([if m.delete then 1 else 0], BigEndian(|m.key|, 4), m.key, BigEndian(|m.value|, 4), m.value, tail);
  }

  lemma {:induction false} MutationSplit(b: Bytes, m: Mutation, rest: Bytes)
    requires UnmarshalMutation(b) == Some((m, rest))
    ensures b != [] && |m.key| < 0x1_0000_0000 && |m.value| < 0x1_0000_0000 && m.delete == (b[0] == 1)
    ensures b == [b[0]] + BigEndian(|m.key|, 4) + m.key + BigEndian(|m.value|, 4) + m.value + rest
  {
    hide BigEndian, FromBigEndian;
    Pow256Values();
    var n := 5 + |m.key|;
    FromBigEndianBound(b[1..5]);
    FromBigEndianBound(b[n..n + 4]);
    assert b == b[..1] + b[1..5] + b[5..n] + b[n..n + 4] + b[n + 4..n + 4 + |m.value|] + rest;
  }

  /** What the decoder accepts, of any bytes at all: a flag byte, then a key and a value each behind its length; only
      the flag 1 means a delete. */
  lemma {:induction false} MutationReadIff(b: Bytes, m: Mutation, rest: Bytes)
    ensures UnmarshalMutation(b) == Some((m, rest)) <==>
      && b != [] && |m.key| < 0x1_0000_0000 && |m.value| < 0x1_0000_0000 && m.delete == (b[0] == 1)
      && b == [b[0]] + BigEndian(|m.key|, 4) + m.key + BigEndian(|m.value|, 4) + m.value + rest
  {
    hide BigEndian, FromBigEndian;
    if UnmarshalMutation(b) == Some((m, rest)) {
      MutationSplit(b, m, rest);
    } else if b != [] && |m.key| < 0x1_0000_0000 && |m.value| < 0x1_0000_0000 {
      Pow256Values();
      BigEndianRoundTrip(|m.key|, 4);
      BigEndianRoundTrip(|m.value|, 4);
      FieldsAt([b[0]], BigEndian(|m.key|, 4), m.key, BigEndian(|m.value|, 4), m.value, rest);
    }
  }

  lemma {:induction false} MarshalHead(muts: seq<Mutation>)
    requires muts != []
    ensures MarshalMutations(muts) == MarshalMutation(muts[0]) + MarshalMutations(muts[1..])
    decreases |muts|
  {
    hide MarshalMutation;
    var n := |muts| - 1;
    if n == 0 {
      assert muts[..0] == [] && muts[1..] == [];
    } else {
      MarshalHead(muts[..n]);
      assert muts[..n][1..] == muts[1..][..n - 1] && muts[1..][n - 1] == muts[n];
      var (x, y, z) := (MarshalMutation(muts[0]), MarshalMutations(muts[1..][..n - 1]), MarshalMutation(muts[n]));
      assert MarshalMutations(muts) == x + y + z && MarshalMutations(muts[1..]) == y + z;
      assert x + y + z == x + (y + z);
    }
  }

  lemma {:induction false} MutationsRoundTrip(muts: seq<Mutation>, tail: Bytes)
    requires forall m :: m in muts ==> |m.key| < 0x1_0000_0000 && |m.value| < 0x1_0000_0000
    ensures UnmarshalMutations(MarshalMutations(muts) + tail, |muts|) == Some(muts)
    decreases |muts|
  {
    hide MarshalMutation, UnmarshalMutation, MarshalMutations;
    if muts != [] {
      MarshalHead(muts);
      var rest := MarshalMutations(muts[1..]) + tail;
      assert MarshalMutations(muts) + tail == MarshalMutation(muts[0]) + rest;
      MutationRoundTrip(muts[0], rest);
      MutationsRoundTrip(muts[1..], tail);
      assert muts == [muts[0]] + muts[1..];
    }
  }

  /** What a proposer sends is what every replica decodes. */
  lemma {:induction false} ProposalRoundTrip(readTS: nat, muts: seq<Mutation>)
    requires readTS <= NO_CONFLICT_READ_TS && Encodable(muts)
    ensures Unmarshal(Marshal(readTS, muts)) == Some((readTS, muts))
  {
    hide BigEndian, FromBigEndian, MarshalMutations, UnmarshalMutations;
    var b := Marshal(readTS, muts);
    Pow256Values();
    BigEndianRoundTrip(readTS, 8);
    BigEndianRoundTrip(|muts|, 4);
    assert b[..8] == BigEndian(readTS, 8) && b[8..12] == BigEndian(|muts|, 4) && b[12..] == MarshalMutations(muts);
    MutationsRoundTrip(muts, []);
    assert MarshalMutations(muts) + [] == MarshalMutations(muts);
  }

  // ---- Whole logs, as bytes ----

  ghost function Outcomes(det: Detector, st: Store, log: seq<LogEntry>): seq<nat>
    decreases |log|
  {
    if log == [] then []
    else
      var before := log[..|log| - 1];
      Outcomes(det, st, before) + [Outcome(det, ApplyLog(det, st, before), log[|log| - 1])]
  }

  lemma {:induction false} NothingApplied(det: Detector, st: Store, log: seq<LogEntry>)
    ensures ApplyLog(det, st, log[..0]) == st && Outcomes(det, st, log[..0]) == []
  {
  }

  lemma {:induction false} OutcomesSnoc(det: Detector, st: Store, log: seq<LogEntry>, i: nat)
    requires i < |log|
    ensures Outcomes(det, st, log[..i + 1]) ==
      Outcomes(det, st, log[..i]) + [Outcome(det, ApplyLog(det, st, log[..i]), log[i])]
  {
    hide Apply, Outcome;
    assert log[..i + 1][..i] == log[..i];
  }

  /** A replica fed the marshalled log ends in the store and reports the results that the log
      determines, so replicas that start equal stay equal. */
  method ApplyEntries(sm: StateMachine, log: seq<LogEntry>) returns (results: seq<nat>)
    requires forall e :: e in log ==> e.readTS <= NO_CONFLICT_READ_TS && Encodable(e.muts)
    modifies sm
    ensures sm.store == ApplyLog(sm.detector, old(sm.store), log)
    ensures results == Outcomes(sm.detector, old(sm.store), log)
    ensures log != [] ==> sm.lastApplied == log[|log| - 1].index
  {
    hide Apply, Outcome, Marshal, Unmarshal, ApplyLog, Outcomes, Encodable;
    results := [];
    var i := 0;
    NothingApplied(sm.detector, sm.store, log);
    while i < |log|
      invariant 0 <= i <= |log|
      invariant sm.store == ApplyLog(sm.detector, old(sm.store), log[..i])
      invariant results == Outcomes(sm.detector, old(sm.store), log[..i])
      invariant i > 0 ==> sm.lastApplied == log[i - 1].index
    {
      ApplyLogSnoc(sm.detector, old(sm.store), log, i);
      OutcomesSnoc(sm.detector, old(sm.store), log, i);
      var cmd := MarshalProposal(log[i].readTS, log[i].muts);
      ProposalRoundTrip(log[i].readTS, log[i].muts);
      var r := sm.Update(log[i].index, cmd);
      results := results + [r.value];
      i := i + 1;
    }
    assert log[..i] == log;
  }

  // ---- A log whose replay changes the store ----

  function RevivingLog(a: Key, b: Key): seq<LogEntry> {
    [LogEntry(1, 0, [Mutation(a, [1], false)]),
     LogEntry(2, 0, [Mutation(a, [2], false), Mutation(b, [2], false)]),
     LogEntry(3, 2, [Mutation(a, [], true)])]
  }

  /** The store after the three entries: the second was aborted on `a`, then `a` was deleted. */
  function RevivingStore(a: Key): Store {
    Store(map[(a, 1) := Put([1]), (a, 3) := Deleted], 3)
  }

  lemma {:induction false} ApplyLogSnoc(det: Detector, st: Store, log: seq<LogEntry>, n: nat)
    requires n < |log|
    ensures ApplyLog(det, st, log[..n + 1]) == Apply(det, ApplyLog(det, st, log[..n]), log[n])
  {
    assert log[..n + 1][..n] == log[..n];
  }

  lemma {:induction false} RevivingSteps(a: Key, b: Key)
    requires a != b
    ensures var log, one := RevivingLog(a, b), Store(map[(a, 1) := Put([1])], 1);
      && Apply(Shipped, Store(map[], 0), log[0]) == one
      && AnyConflict(Shipped, one, log[1].muts, 0)
      && Apply(Shipped, one, log[2]) == RevivingStore(a)
  {
    var log, one := RevivingLog(a, b), Store(map[(a, 1) := Put([1])], 1);
    WriteOne(Store(map[], 0), log[0].muts[0], 1);
    WriteOne(one, log[2].muts[0], 3);
    assert Write(Store(map[], 0), log[0].muts[0], 1).versions == one.versions;
    assert Write(one, log[2].muts[0], 3).versions == RevivingStore(a).versions;
    assert Conflicts(Shipped, one, log[1].muts[0].key, 0);
  }

  lemma {:induction false} RevivingLogApplied(a: Key, b: Key)
    requires a != b
    ensures var base, log := Store(map[], 0), RevivingLog(a, b);
      && ApplyLog(Shipped, base, log[..1]) == Store(map[(a, 1) := Put([1])], 1)
      && ApplyLog(Shipped, base, log) == RevivingStore(a)
  {
    hide Apply, LatestVersion, Conflicts, AnyConflict;
    var base, log := Store(map[], 0), RevivingLog(a, b);
    assert log[..0] == [] && log[..3] == log;
    ApplyLogSnoc(Shipped, base, log, 0);
    ApplyLogSnoc(Shipped, base, log, 1);
    ApplyLogSnoc(Shipped, base, log, 2);
    RevivingSteps(a, b);
    assert Apply(Shipped, Store(map[(a, 1) := Put([1])], 1), log[1]) == Store(map[(a, 1) := Put([1])], 1) by {
      ApplyAborted(Shipped, Store(map[(a, 1) := Put([1])], 1), log[1]);
    }
  }

  lemma {:induction false} ApplyAborted(det: Detector, st: Store, e: LogEntry)
    requires AnyConflict(det, st, e.muts, e.readTS)
    ensures Apply(det, st, e) == st
  {
  }

  lemma {:induction false} RevivingReplay(a: Key, b: Key)
    requires a != b
    ensures var st, e := RevivingStore(a), RevivingLog(a, b)[1];
      && !AnyConflict(Shipped, st, e.muts, e.readTS)
      && ReadAt(st.versions, b, 3) == None
      && ReadAt(WriteAll(st, e.muts, e.index).versions, b, 3) == Some([2])
  {
    var st, e := RevivingStore(a), RevivingLog(a, b)[1];
    assert st.versions[(a, 3)] == Deleted;
    assert LatestVersion(Shipped, st, a) == None && LatestVersion(Shipped, st, b) == None;
    WriteAllContents(st, e.muts, 2);
    var st' := WriteAll(st, e.muts, 2);
    assert e.muts[1].key == b;
    assert Writes(e.muts, b);
    NewestTsIs(st'.versions, b, 3, 2);
  }

  /** With the shipped LatestVersion, replaying the aborted entry applies it: `b`, which no
      transaction ever committed, becomes visible. */
  lemma {:induction false} ShippedReplayRevivesAbortedEntry(a: Key, b: Key)
    requires a != b
    ensures var base, log := Store(map[], 0), RevivingLog(a, b);
      && LogOk(base, log) && Revives(Shipped, base, log, 1)
      && ReadAt(ApplyLog(Shipped, base, log).versions, b, 3) == None
      && ReadAt(Apply(Shipped, ApplyLog(Shipped, base, log), log[1]).versions, b, 3) == Some([2])
  {
    hide AnyConflict, WriteAll, ApplyLog;
    RevivingLogApplied(a, b);
    RevivingSteps(a, b);
    RevivingReplay(a, b);
  }

  /** The proposal of a transaction that read at 7, writes the key 1 and deletes the key 2, byte by byte. */
  lemma {:induction false} ProposalBytes()
    ensures Marshal(7, [Mutation([1], [9], false), Mutation([2], [], true)]) ==
      [0, 0, 0, 0, 0, 0, 0, 7] + [0, 0, 0, 2]
      + [0] + [0, 0, 0, 1] + [1] + [0, 0, 0, 1] + [9]
      + [1] + [0, 0, 0, 1] + [2] + [0, 0, 0, 0]
  {
    hide BigEndian;
    var m, n := Mutation([1], [9], false), Mutation([2], [], true);
    SmallBigEndian(7);
    SmallBigEndian(2);
    SmallBigEndian(1);
    SmallBigEndian(0);
    assert MarshalMutation(m) == [0] + [0, 0, 0, 1] + [1] + [0, 0, 0, 1] + [9];
    assert MarshalMutation(n) == [1] + [0, 0, 0, 1] + [2] + [0, 0, 0, 0];
    assert [m, n][..1] == [m] && [m][..0] == [];
    assert MarshalMutations([m]) == MarshalMutation(m);
    assert MarshalMutations([m, n]) == MarshalMutation(m) + MarshalMutation(n);
  }
}
