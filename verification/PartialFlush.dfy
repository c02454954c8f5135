/** Runs in which flushes fail part-way (engine/internal/transactions/engine.go): the clock stays, what was
    already written stays in the store, and the next commit or a reopen moves the clock over it. */
module PartialFlush {
  import opened Bytes
  import opened Versions
  import opened SnapshotIsolation

  /** One advance of the clock: what failed flushes had left at its timestamp, and what was published on
      top of that; nothing is published by a reopen. */
  datatype Advance = Advance(ts: nat, readTS: nat, debris: seq<Mutation>, muts: seq<Mutation>)

  /** What lies above the clock now, and every advance so far. */
  datatype Track = Track(debris: seq<Mutation>, advances: seq<Advance>)

  /** The writes of the commit in flight that are already in the store. */
  function InFlight(s: State): seq<Mutation> {
    if s.lock.Flushing? && s.lock.tid in s.txns && s.lock.i <= |s.txns[s.lock.tid].muts|
    then s.txns[s.lock.tid].muts[..s.lock.i] else []
  }

  /** Bookkeeping beside an enabled step. */
  function TrackStep(s: State, tr: Track, e: Event): Track {
    match e
    case FlushFails => tr.(debris := tr.debris + InFlight(s))
    case Publish =>
      if s.lock.Flushing? && s.lock.tid in s.txns then
        var x := s.txns[s.lock.tid];
        Track([], tr.advances + [Advance(s.lock.ts, x.readTS, tr.debris, x.muts)])
      else tr
    case Reopen =>
      if tr.debris == [] then tr else Track([], tr.advances + [Advance(s.clock + 1, s.clock, tr.debris, [])])
    case _ => tr
  }

  function TrackRun(det: Detector, s: State, tr: Track, es: seq<Event>): Track
    decreases |es|
  {
    if es == [] then tr
    else match Step(det, s, es[0])
      case None => tr
      case Some(s') => TrackRun(det, s', TrackStep(s, tr, es[0]), es[1..])
  }

  /** What the store holds: the leftovers count as part of the commit that followed them. */
  function Actual(advances: seq<Advance>): (r: seq<Commit>)
    ensures |r| == |advances|
  {
    seq(|advances|, i requires 0 <= i < |advances| =>
      Commit(advances[i].ts, advances[i].readTS, advances[i].debris + advances[i].muts))
  }

  /** What was published. */
  function Intended(advances: seq<Advance>): (r: seq<Commit>)
    ensures |r| == |advances|
  {
    seq(|advances|, i requires 0 <= i < |advances| => Commit(advances[i].ts, advances[i].readTS, advances[i].muts))
  }

  /** The published commits alone, as the engine records them. */
  function Published(advances: seq<Advance>): seq<Commit> {
    if advances == [] then []
    else
      var n := |advances| - 1;
      var a := advances[n];
      Published(advances[..n]) + if a.muts == [] then [] else [Commit(a.ts, a.readTS, a.muts)]
  }

  // ---- The invariant of every run, clean or not ----

  ghost predicate Checked(det: Detector, st: Store, x: TxnState, n: nat)
    requires n <= |x.muts|
  {
    forall j :: 0 <= j < n ==> !Conflicts(det, st, x.muts[j].key, x.readTS)
  }

  ghost predicate HolderOk(det: Detector, s: State, tr: Track) {
    match s.lock
    case Free => true
    case Checking(t, i) =>
      t in s.txns && s.txns[t].muts != [] && i <= |s.txns[t].muts| && Checked(det, s.store, s.txns[t], i)
    case Flushing(t, ts, i) =>
      && t in s.txns && s.txns[t].muts != [] && i <= |s.txns[t].muts| && ts == s.clock + 1
      && Checked(det, WriteAll(Replay(s.base, Actual(tr.advances)), tr.debris, s.clock + 1), s.txns[t],
                 |s.txns[t].muts|)
  }

  /** The store is the serial execution of the advances, leftovers included, plus what lies above the clock. */
  ghost predicate AnyInv(det: Detector, s: State, tr: Track) {
    && WellFormed(s.base)
    && s.clock == StartClock(s.base) + |tr.advances|
    && HistoryOk(s.base, Actual(tr.advances))
    && TxnsOk(s)
    && HolderOk(det, s, tr)
    && s.store == WriteAll(Replay(s.base, Actual(tr.advances)), tr.debris + InFlight(s), s.clock + 1)
    && s.history == Published(tr.advances)
  }

  lemma {:induction false} StartAnyInv(det: Detector, base: Store)
    requires WellFormed(base)
    ensures AnyInv(det, Start(base), Track([], []))
  {
    assert Actual([]) == [];
  }

  lemma {:induction false} ActualSnoc(advances: seq<Advance>, a: Advance)
    ensures Actual(advances + [a]) == Actual(advances) + [Commit(a.ts, a.readTS, a.debris + a.muts)]
    ensures Intended(advances + [a]) == Intended(advances) + [Commit(a.ts, a.readTS, a.muts)]
    ensures Published(advances + [a]) ==
      Published(advances) + if a.muts == [] then [] else [Commit(a.ts, a.readTS, a.muts)]
  {
    assert (advances + [a])[..|advances|] == advances;
  }

  lemma {:induction false} ReplaySnoc(base: Store, h: seq<Commit>, c: Commit)
    ensures Replay(base, h + [c]) == WriteAll(Replay(base, h), c.muts, c.ts)
  {
    assert (h + [c])[..|h|] == h;
  }

  /** The clock moves over the leftovers `a.debris` and the commit `a.muts`. */
  lemma {:induction false} AdvanceKeeps(base: Store, tr: Track, a: Advance, clock: nat)
    requires HistoryOk(base, Actual(tr.advances)) && clock == StartClock(base) + |tr.advances|
    requires a.ts == clock + 1 && StartClock(base) <= a.readTS <= clock && a.debris + a.muts != []
    ensures HistoryOk(base, Actual(tr.advances + [a]))
    ensures Replay(base, Actual(tr.advances + [a])) ==
      WriteAll(Replay(base, Actual(tr.advances)), a.debris + a.muts, a.ts)
    ensures |tr.advances + [a]| == |tr.advances| + 1
  {
    hide Actual, Replay, WriteAll, HistoryOk;
    var c := Commit(a.ts, a.readTS, a.debris + a.muts);
    ActualSnoc(tr.advances, a);
    ReplaySnoc(base, Actual(tr.advances), c);
    HistorySnoc(base, Actual(tr.advances), c);
  }

  lemma {:induction false} HistorySnoc(base: Store, h: seq<Commit>, c: Commit)
    requires HistoryOk(base, h) && c.ts == StartClock(base) + |h| + 1 && StartClock(base) <= c.readTS < c.ts
    requires c.muts != []
    ensures HistoryOk(base, h + [c])
  {
  }

  lemma {:induction false} PublishAnyInv(det: Detector, s: State, tr: Track)
    requires AnyInv(det, s, tr) && Step(det, s, Publish).Some?
    ensures AnyInv(det, Step(det, s, Publish).value, TrackStep(s, tr, Publish))
  {
    hide HistoryOk, Checked, Replay, WriteAll;
    var x := s.txns[s.lock.tid];
    var a := Advance(s.lock.ts, x.readTS, tr.debris, x.muts);
    assert x.muts[..|x.muts|] == x.muts;
    AdvanceKeeps(s.base, tr, a, s.clock);
    ActualSnoc(tr.advances, a);
    NothingWritten(Replay(s.base, Actual(tr.advances + [a])), s.clock + 2);
  }

  lemma {:induction false} NothingWritten(st: Store, ts: nat)
    ensures WriteAll(st, [] + [], ts) == st
  {
  }

  lemma {:induction false} HighestAfter(st: Store, ms: seq<Mutation>, ts: nat)
    ensures WriteAll(st, ms, ts).maxVersion == if ms != [] && ts > st.maxVersion then ts else st.maxVersion
  {
    WriteAllContents(st, ms, ts);
  }

  lemma {:induction false} ReopenAnyInv(det: Detector, s: State, tr: Track)
    requires AnyInv(det, s, tr) && Step(det, s, Reopen).Some?
    ensures AnyInv(det, Step(det, s, Reopen).value, TrackStep(s, tr, Reopen))
  {
    hide HistoryOk, Checked, Replay, WriteAll, Published;
    var r := Replay(s.base, Actual(tr.advances));
    ReplayShape(s.base, Actual(tr.advances));
    HighestAfter(r, tr.debris, s.clock + 1);
    assert tr.debris + [] == tr.debris;
    if tr.debris == [] {
      NothingWritten(r, s.clock + 1);
    } else {
      var a := Advance(s.clock + 1, s.clock, tr.debris, []);
      AdvanceKeeps(s.base, tr, a, s.clock);
      ActualSnoc(tr.advances, a);
      NothingWritten(Replay(s.base, Actual(tr.advances + [a])), s.clock + 2);
    }
  }

  /** One more key of a batch laid after `d`. */
  lemma {:induction false} WriteNext(st: Store, d: seq<Mutation>, ms: seq<Mutation>, i: nat, ts: nat)
    requires i < |ms|
    ensures Write(WriteAll(st, d + ms[..i], ts), ms[i], ts) == WriteAll(st, d + ms[..i + 1], ts)
  {
    var all := d + ms[..i + 1];
    assert all[..|all| - 1] == d + ms[..i];
  }

  lemma {:induction false} FlushAnyInv(det: Detector, s: State, tr: Track, e: Event)
    requires e in {StartFlush, FlushKey, FlushFails} && AnyInv(det, s, tr) && Step(det, s, e).Some?
    ensures AnyInv(det, Step(det, s, e).value, TrackStep(s, tr, e))
  {
    hide HistoryOk, Replay, Published, Actual, WriteAll, Conflicts, Write;
    var ms := s.txns[s.lock.tid].muts;
    assert ms[..0] == [] && tr.debris + [] == tr.debris;
    if e.FlushKey? {
      WriteNext(Replay(s.base, Actual(tr.advances)), tr.debris, ms, s.lock.i, s.clock + 1);
    }
    if e.FlushFails? {
      assert tr.debris + InFlight(s) + [] == tr.debris + InFlight(s);
    }
  }

  lemma {:induction false} CheckAnyInv(det: Detector, s: State, tr: Track)
    requires AnyInv(det, s, tr) && Step(det, s, CheckKey).Some?
    ensures AnyInv(det, Step(det, s, CheckKey).value, tr)
  {
    hide HistoryOk, Replay, Published, Actual, WriteAll, Conflicts;
    assert InFlight(Step(det, s, CheckKey).value) == InFlight(s);
  }

  lemma {:induction false} OtherAnyInv(det: Detector, s: State, tr: Track, e: Event)
    requires e !in {StartFlush, FlushKey, FlushFails, Publish, Reopen, CheckKey} && AnyInv(det, s, tr)
    requires Step(det, s, e).Some?
    ensures AnyInv(det, Step(det, s, e).value, TrackStep(s, tr, e))
  {
    hide HistoryOk, Replay, Published, Actual, WriteAll, Conflicts;
    assert InFlight(Step(det, s, e).value) == InFlight(s);
    assert s.lock.Checking? && s.lock.tid in s.txns ==>
      Step(det, s, e).value.txns[s.lock.tid].muts == s.txns[s.lock.tid].muts;
  }

  lemma {:induction false} StepAnyInv(det: Detector, s: State, tr: Track, e: Event)
    requires AnyInv(det, s, tr) && Step(det, s, e).Some?
    ensures AnyInv(det, Step(det, s, e).value, TrackStep(s, tr, e))
    ensures Step(det, s, e).value.base == s.base
  {
    hide AnyInv;
    match e
    case StartFlush | FlushKey | FlushFails => FlushAnyInv(det, s, tr, e);
    case Publish => PublishAnyInv(det, s, tr);
    case Reopen => ReopenAnyInv(det, s, tr);
    case CheckKey => CheckAnyInv(det, s, tr);
    case _ => OtherAnyInv(det, s, tr, e);
  }

  lemma {:induction false} RunAnyInv(det: Detector, s: State, tr: Track, es: seq<Event>)
    requires AnyInv(det, s, tr) && Run(det, s, es).Some?
    ensures AnyInv(det, Run(det, s, es).value, TrackRun(det, s, tr, es)) && Run(det, s, es).value.base == s.base
    decreases |es|
  {
    hide AnyInv, Step, TrackStep;
    if es != [] {
      StepAnyInv(det, s, tr, es[0]);
      RunAnyInv(det, Step(det, s, es[0]).value, TrackStep(s, tr, es[0]), es[1..]);
    }
  }

  // ---- What readers see ----

  /** In every run a snapshot is a prefix of the advances, leftovers included. */
  lemma {:induction false} SnapshotInAnyRun(det: Detector, s: State, tr: Track, ts: nat, k: Key)
    requires AnyInv(det, s, tr) && StartClock(s.base) <= ts <= s.clock
    ensures ReadAt(s.store.versions, k, ts) == SerialRead(s.base, Actual(tr.advances)[..ts - StartClock(s.base)], k)
  {
    hide HistoryOk, Replay, Published, Checked, SerialRead;
    ReadBelowWriteAll(Replay(s.base, Actual(tr.advances)), tr.debris + InFlight(s), s.clock + 1, k, ts);
    ReplayReads(s.base, Actual(tr.advances), ts - StartClock(s.base), k);
  }

  /** What the leftovers say of a key is overwritten by the commit, or is what was there before it. */
  ghost predicate HarmlessAt(base: Store, advances: seq<Advance>, i: nat, k: Key)
    requires i < |advances|
  {
    Writes(advances[i].debris, k) && !Writes(advances[i].muts, k) ==>
      Overlay(advances[i].debris, k, None) == SerialRead(base, Intended(advances)[..i], k)
  }

  ghost predicate Harmless(base: Store, advances: seq<Advance>, i: nat)
    requires i < |advances|
  {
    forall k :: HarmlessAt(base, advances, i, k)
  }

  /** After `n` advances the store reads as if only the published commits had happened. */
  ghost predicate Faithful(base: Store, advances: seq<Advance>, n: nat)
    requires n <= |advances|
  {
    forall k :: SameAt(base, advances, n, k)
  }

  ghost predicate SameAt(base: Store, advances: seq<Advance>, n: nat, k: Key)
    requires n <= |advances|
  {
    SerialRead(base, Actual(advances)[..n], k) == SerialRead(base, Intended(advances)[..n], k)
  }

  lemma {:induction false} SerialSnoc(base: Store, h: seq<Commit>, i: nat, k: Key)
    requires i < |h|
    ensures SerialRead(base, h[..i + 1], k) == Overlay(h[i].muts, k, SerialRead(base, h[..i], k))
  {
    assert h[..i + 1][..i] == h[..i];
  }

  /** One advance keeps the store faithful exactly when its leftovers are harmless. */
  lemma {:induction false} AdvanceFaithfulIff(base: Store, advances: seq<Advance>, i: nat)
    requires i < |advances| && Faithful(base, advances, i)
    ensures Faithful(base, advances, i + 1) <==> Harmless(base, advances, i)
  {
    hide SerialRead, Overlay, Writes, Actual, Intended;
    var a := advances[i];
    forall k ensures SameAt(base, advances, i + 1, k) <==> HarmlessAt(base, advances, i, k) {
      assert SameAt(base, advances, i, k);
      SameAfterIff(base, advances, i, k);
    }
    if Faithful(base, advances, i + 1) {
      forall k ensures HarmlessAt(base, advances, i, k) {
        assert SameAt(base, advances, i + 1, k);
      }
    }
    if Harmless(base, advances, i) {
      var n := i + 1;
      forall k ensures SameAt(base, advances, n, k) {
        assert HarmlessAt(base, advances, i, k);
      }
    }
  }

  lemma {:induction false} SameAfterIff(base: Store, advances: seq<Advance>, i: nat, k: Key)
    requires i < |advances| && SameAt(base, advances, i, k)
    ensures SameAt(base, advances, i + 1, k) <==> HarmlessAt(base, advances, i, k)
  {
    hide SerialRead, Overlay, Writes;
    var a := advances[i];
    SerialSnoc(base, Actual(advances), i, k);
    SerialSnoc(base, Intended(advances), i, k);
    var below := SerialRead(base, Intended(advances)[..i], k);
    OverlayAppend(a.debris, a.muts, k, below);
    OverlayCases(a.debris, a.muts, k, below);
  }

  lemma {:induction false} OverlayCases(d: seq<Mutation>, c: seq<Mutation>, k: Key, below: Option<Bytes>)
    ensures Overlay(c, k, Overlay(d, k, below)) == Overlay(c, k, below) <==>
      (Writes(d, k) && !Writes(c, k) ==> Overlay(d, k, None) == below)
  {
  }

  /** Every prefix is faithful exactly when the leftovers of every advance are harmless. */
  lemma {:induction false} FaithfulIff(base: Store, advances: seq<Advance>, n: nat)
    requires n <= |advances|
    ensures (forall i :: 0 <= i <= n ==> Faithful(base, advances, i)) <==>
      forall i :: 0 <= i < n ==> Harmless(base, advances, i)
  {
    hide Harmless;
    if n == 0 {
      assert Actual(advances)[..0] == [] && Intended(advances)[..0] == [];
      assert forall k :: SameAt(base, advances, 0, k);
    } else {
      hide Faithful;
      FaithfulIff(base, advances, n - 1);
      if Faithful(base, advances, n - 1) {
        AdvanceFaithfulIff(base, advances, n - 1);
      }
    }
  }

  /** The advances of a run. */
  function Advances(det: Detector, base: Store, es: seq<Event>): seq<Advance> {
    TrackRun(det, Start(base), Track([], []), es).advances
  }

  /** Reads at every timestamp up to the clock show the published commits in full and nothing else. */
  ghost predicate OnlyWholeCommits(s: State, advances: seq<Advance>)
    requires s.clock <= StartClock(s.base) + |advances|
  {
    forall ts, k :: StartClock(s.base) <= ts <= s.clock ==>
      ReadAt(s.store.versions, k, ts) == SerialRead(s.base, Intended(advances)[..ts - StartClock(s.base)], k)
  }

  /** In every run, whatever flushes failed and how far they had come: readers see whole published commits
      only, if and only if each advance of the clock went over leftovers that it overwrote or that said
      what was there before. */
  lemma {:induction false} WholeCommitsIff(det: Detector, base: Store, es: seq<Event>)
    requires WellFormed(base) && Run(det, Start(base), es).Some?
    ensures
      var (s, advances) := (Run(det, Start(base), es).value, Advances(det, base, es));
      && s.base == base && s.clock == StartClock(base) + |advances| && s.history == Published(advances)
      && (OnlyWholeCommits(s, advances) <==> forall i :: 0 <= i < |advances| ==> Harmless(base, advances, i))
  {
    hide Harmless, SerialRead, Run, TrackRun, HistoryOk, Replay, Checked;
    var tr := TrackRun(det, Start(base), Track([], []), es);
    var s := Run(det, Start(base), es).value;
    StartAnyInv(det, base);
    RunAnyInv(det, Start(base), Track([], []), es);
    ReadsAreActual(det, s, tr);
    FaithfulIff(base, tr.advances, |tr.advances|);
  }

  lemma {:induction false} ReadsAreActual(det: Detector, s: State, tr: Track)
    requires AnyInv(det, s, tr)
    ensures OnlyWholeCommits(s, tr.advances) <==>
      forall i :: 0 <= i <= |tr.advances| ==> Faithful(s.base, tr.advances, i)
  {
    hide SerialRead, HistoryOk, Replay, Checked, Published, Actual, Intended;
    var start := StartClock(s.base);
    forall ts, k | start <= ts <= s.clock
      ensures ReadAt(s.store.versions, k, ts) == SerialRead(s.base, Actual(tr.advances)[..ts - start], k)
    {
      SnapshotInAnyRun(det, s, tr, ts, k);
    }
    if OnlyWholeCommits(s, tr.advances) {
      forall i, k | 0 <= i <= |tr.advances| ensures SameAt(s.base, tr.advances, i, k) {
        assert ReadAt(s.store.versions, k, start + i) ==
          SerialRead(s.base, Actual(tr.advances)[..start + i - start], k);
      }
    }
    if forall i :: 0 <= i <= |tr.advances| ==> Faithful(s.base, tr.advances, i) {
      forall ts, k | start <= ts <= s.clock
        ensures ReadAt(s.store.versions, k, ts) == SerialRead(s.base, Intended(tr.advances)[..ts - start], k)
      {
        assert Faithful(s.base, tr.advances, ts - start);
        assert SameAt(s.base, tr.advances, ts - start, k);
      }
    }
  }

  // ---- Clean runs ----

  ghost predicate NoDebris(tr: Track) {
    tr.debris == [] && forall i :: 0 <= i < |tr.advances| ==> tr.advances[i].debris == []
  }

  /** Runs whose failed flushes left nothing have no leftovers at all. */
  lemma {:induction false} CleanLeavesNothing(det: Detector, s: State, tr: Track, es: seq<Event>)
    requires NoDebris(tr) && CleanRun(det, s, es) && Run(det, s, es).Some?
    ensures NoDebris(TrackRun(det, s, tr, es))
    decreases |es|
  {
    hide Step;
    if es != [] {
      CleanLeavesNothing(det, Step(det, s, es[0]).value, TrackStep(s, tr, es[0]), es[1..]);
    }
  }

  // ---- Lost updates ----

  lemma {:induction false} AdvanceVersion(base: Store, advances: seq<Advance>, i: nat, k: Key)
    requires WellFormed(base) && HistoryOk(base, Actual(advances)) && i < |advances| && Writes(advances[i].muts, k)
    ensures (k, advances[i].ts) in Replay(base, Actual(advances)).versions
  {
    hide Replay;
    assert Actual(advances)[i].ts == advances[i].ts;
    LastWriteAppend(advances[i].debris, advances[i].muts, k);
    ReplayVersions(base, Actual(advances), k, advances[i].ts);
  }

  /** First committer wins among the advances. */
  ghost predicate NoneLost(advances: seq<Advance>) {
    forall i, j, k :: 0 <= i < j < |advances| && Writes(advances[i].muts, k) && Writes(advances[j].muts, k) ==>
      advances[i].ts <= advances[j].readTS
  }

  /** The store a commit is checked against: with leftovers, without its own writes. */
  ghost function CheckedStore(s: State, tr: Track): Store {
    WriteAll(Replay(s.base, Actual(tr.advances)), tr.debris, s.clock + 1)
  }

  /** The commit in flight writes a key that a newer commit than its snapshot wrote, and the shipped check does
      not find the key because its newest version is a delete, published or left over. */
  ghost predicate Masked(s: State, tr: Track, i: nat, k: Key) {
    && i < |tr.advances| && s.lock.Flushing? && s.lock.tid in s.txns
    && Writes(tr.advances[i].muts, k) && Writes(s.txns[s.lock.tid].muts, k)
    && s.txns[s.lock.tid].readTS < tr.advances[i].ts && LatestVersion(Shipped, CheckedStore(s, tr), k).None?
  }

  ghost predicate PublishMasks(s: State, tr: Track) {
    exists i: nat, k :: Masked(s, tr, i, k)
  }

  /** A newer commit of a written key that was not noticed was masked by a delete, and only under the shipped
      check. */
  lemma {:induction false} Unnoticed(det: Detector, s: State, tr: Track, i: nat, k: Key)
    requires AnyInv(det, s, tr) && Step(det, s, Publish).Some? && i < |tr.advances|
    requires Writes(tr.advances[i].muts, k) && Writes(s.txns[s.lock.tid].muts, k)
    ensures s.txns[s.lock.tid].readTS < tr.advances[i].ts ==> det.Shipped? && Masked(s, tr, i, k)
  {
    hide HistoryOk, Replay, Published, Actual, WriteAll, Conflicts, LatestVersion;
    var x := s.txns[s.lock.tid];
    var r := Replay(s.base, Actual(tr.advances));
    AdvanceVersion(s.base, tr.advances, i, k);
    ReplayShape(s.base, Actual(tr.advances));
    WriteAllContents(r, tr.debris, s.clock + 1);
    var j :| 0 <= j < |x.muts| && x.muts[j].key == k;
    assert !Conflicts(det, CheckedStore(s, tr), x.muts[j].key, x.readTS);
    if x.readTS < tr.advances[i].ts { UnseenVersion(det, CheckedStore(s, tr), k, tr.advances[i].ts, x.readTS); }
  }

  /** A newer version that raises no conflict is not found at all. */
  lemma {:induction false} UnseenVersion(det: Detector, st: Store, k: Key, ts: nat, readTS: nat)
    requires (k, ts) in st.versions && ts <= st.maxVersion && readTS < ts && !Conflicts(det, st, k, readTS)
    ensures det.Shipped? && LatestVersion(Shipped, st, k).None?
  {
    NewestTsBound(st.versions, k, st.maxVersion);
  }

  lemma {:induction false} PublishLosesIff(det: Detector, s: State, tr: Track)
    requires AnyInv(det, s, tr) && Step(det, s, Publish).Some? && NoneLost(tr.advances)
    ensures NoneLost(TrackStep(s, tr, Publish).advances) <==> det.Contract? || !PublishMasks(s, tr)
  {
    hide AnyInv, Writes, Masked;
    var x := s.txns[s.lock.tid];
    var after := TrackStep(s, tr, Publish).advances;
    var n := |tr.advances|;
    forall i, k | 0 <= i < n && Writes(tr.advances[i].muts, k) && Writes(x.muts, k)
      ensures x.readTS < tr.advances[i].ts ==> det.Shipped? && Masked(s, tr, i, k)
    {
      Unnoticed(det, s, tr, i, k);
    }
    if i: nat, k :| Masked(s, tr, i, k) {
      MaskedMeans(s, tr, i, k);
      assert after[i] == tr.advances[i] && after[n].muts == x.muts;
    }
  }

  lemma {:induction false} MaskedMeans(s: State, tr: Track, i: nat, k: Key)
    requires Masked(s, tr, i, k)
    ensures i < |tr.advances| && s.lock.Flushing? && s.lock.tid in s.txns
    ensures Writes(tr.advances[i].muts, k) && Writes(s.txns[s.lock.tid].muts, k)
    ensures s.txns[s.lock.tid].readTS < tr.advances[i].ts
  {
  }

  lemma {:induction false} StepLosesIff(det: Detector, s: State, tr: Track, e: Event)
    requires AnyInv(det, s, tr) && Step(det, s, e).Some?
    ensures NoneLost(TrackStep(s, tr, e).advances) <==>
      NoneLost(tr.advances) && (det.Contract? || (e.Publish? ==> !PublishMasks(s, tr)))
  {
    hide AnyInv, Writes, PublishMasks;
    LostStays(tr.advances, TrackStep(s, tr, e).advances);
    if e.Publish? && NoneLost(tr.advances) { PublishLosesIff(det, s, tr); }
    if e.Reopen? { NothingWrites(); }
  }

  lemma {:induction false} LostStays(p: seq<Advance>, q: seq<Advance>)
    ensures p <= q && NoneLost(q) ==> NoneLost(p)
  {
    hide Writes;
    if p <= q && NoneLost(q) {
      forall i | 0 <= i < |p| ensures p[i] == q[i] {}
    }
  }

  lemma {:induction false} NothingWrites()
    ensures forall k :: !Writes([], k)
  {
  }

  /** No publish of the run masks a newer commit. */
  ghost predicate NeverMasks(det: Detector, s: State, tr: Track, es: seq<Event>)
    decreases |es|
  {
    es == [] ||
    ((es[0].Publish? ==> !PublishMasks(s, tr)) &&
     match Step(det, s, es[0])
     case None => true
     case Some(s') => NeverMasks(det, s', TrackStep(s, tr, es[0]), es[1..]))
  }

  /** However flushes fail: under the LatestVersion contract no published update is lost, and with the shipped one
      none is exactly in the runs in which no publish goes over a delete that hides a newer commit. */
  lemma {:induction false} NoLostUpdateDespiteFailures(det: Detector, s: State, tr: Track, es: seq<Event>)
    requires AnyInv(det, s, tr) && Run(det, s, es).Some?
    ensures NoneLost(TrackRun(det, s, tr, es).advances) <==>
      NoneLost(tr.advances) && (det.Contract? || NeverMasks(det, s, tr, es))
    decreases |es|
  {
    hide AnyInv, Step, TrackStep, NoneLost, PublishMasks;
    if es != [] {
      StepLosesIff(det, s, tr, es[0]);
      StepAnyInv(det, s, tr, es[0]);
      NoLostUpdateDespiteFailures(det, Step(det, s, es[0]).value, TrackStep(s, tr, es[0]), es[1..]);
    }
  }

  // ---- One key at a time ----

  /** The leftovers under every advance are harmless to the key. */
  ghost predicate HarmlessTo(base: Store, advances: seq<Advance>, k: Key) {
    forall i :: 0 <= i < |advances| ==> HarmlessAt(base, advances, i, k)
  }

  lemma {:induction false} SameAtIff(base: Store, advances: seq<Advance>, n: nat, k: Key)
    requires n <= |advances|
    ensures (forall i :: 0 <= i <= n ==> SameAt(base, advances, i, k)) <==>
      forall i :: 0 <= i < n ==> HarmlessAt(base, advances, i, k)
  {
    hide HarmlessAt;
    if n == 0 {
      assert Actual(advances)[..0] == [] && Intended(advances)[..0] == [];
    } else {
      hide SameAt;
      SameAtIff(base, advances, n - 1, k);
      if SameAt(base, advances, n - 1, k) { SameAfterIff(base, advances, n - 1, k); }
    }
  }

  lemma {:induction false} HarmlessPrefix(base: Store, p: seq<Advance>, q: seq<Advance>, k: Key)
    requires p <= q && HarmlessTo(base, q, k)
    ensures HarmlessTo(base, p, k)
  {
    hide SerialRead, Overlay;
    forall i | 0 <= i < |p| ensures HarmlessAt(base, p, i, k) {
      assert Intended(p)[..i] == Intended(q)[..i] && p[i] == q[i];
      assert HarmlessAt(base, q, i, k);
    }
  }

  lemma {:induction false} AdvancesGrow(det: Detector, s: State, tr: Track, es: seq<Event>)
    ensures tr.advances <= TrackRun(det, s, tr, es).advances
    decreases |es|
  {
    hide Step;
    if es != [] && Step(det, s, es[0]).Some? {
      AdvancesGrow(det, Step(det, s, es[0]).value, TrackStep(s, tr, es[0]), es[1..]);
    }
  }

  /** Reads of a key whose leftovers are harmless show the published commits. */
  lemma {:induction false} ReadsIntended(det: Detector, s: State, tr: Track, ts: nat, k: Key)
    requires AnyInv(det, s, tr) && StartClock(s.base) <= ts <= s.clock && HarmlessTo(s.base, tr.advances, k)
    ensures ReadAt(s.store.versions, k, ts) == SerialRead(s.base, Intended(tr.advances)[..ts - StartClock(s.base)], k)
  {
    hide HistoryOk, Replay, Published, Checked, SerialRead, HarmlessAt;
    SnapshotInAnyRun(det, s, tr, ts, k);
    SameAtIff(s.base, tr.advances, |tr.advances|, k);
    assert SameAt(s.base, tr.advances, ts - StartClock(s.base), k);
  }

  /** Readers at every timestamp up to the clock see of the key what was published. */
  ghost predicate ReadsPublished(s: State, advances: seq<Advance>, k: Key)
    requires s.clock <= StartClock(s.base) + |advances|
  {
    forall ts :: StartClock(s.base) <= ts <= s.clock ==>
      ReadAt(s.store.versions, k, ts) == SerialRead(s.base, Intended(advances)[..ts - StartClock(s.base)], k)
  }

  lemma {:induction false} ReadsPublishedIff(det: Detector, s: State, tr: Track, k: Key)
    requires AnyInv(det, s, tr)
    ensures ReadsPublished(s, tr.advances, k) <==> HarmlessTo(s.base, tr.advances, k)
  {
    hide HistoryOk, Replay, Published, Checked, SerialRead, HarmlessAt, Actual, Intended;
    var start := StartClock(s.base);
    SameAtIff(s.base, tr.advances, |tr.advances|, k);
    forall ts | start <= ts <= s.clock
      ensures ReadAt(s.store.versions, k, ts) == SerialRead(s.base, Actual(tr.advances)[..ts - start], k)
    {
      SnapshotInAnyRun(det, s, tr, ts, k);
    }
    if ReadsPublished(s, tr.advances, k) {
      forall i | 0 <= i <= |tr.advances| ensures SameAt(s.base, tr.advances, i, k) {
        assert ReadAt(s.store.versions, k, start + i) ==
          SerialRead(s.base, Actual(tr.advances)[..start + i - start], k);
      }
    }
    if forall i :: 0 <= i <= |tr.advances| ==> SameAt(s.base, tr.advances, i, k) {
      forall ts | start <= ts <= s.clock
        ensures ReadAt(s.store.versions, k, ts) == SerialRead(s.base, Intended(tr.advances)[..ts - start], k)
      {
        assert SameAt(s.base, tr.advances, ts - start, k);
      }
    }
  }

  /** The leftovers above the clock delete the key, which hides its versions from the shipped check. */
  predicate LeftDeleted(tr: Track, k: Key) {
    Writes(tr.debris, k) && Overlay(tr.debris, k, None).None?
  }

  lemma {:induction false} AcceptedRead(det: Detector, r: Store, debris: seq<Mutation>, clock: nat, k: Key, readTS: nat)
    requires WellFormed(r) && r.maxVersion <= clock && readTS <= clock
    requires !Conflicts(det, WriteAll(r, debris, clock + 1), k, readTS)
    requires det.Shipped? && Writes(debris, k) ==> Overlay(debris, k, None).Some?
    ensures ReadAt(r.versions, k, clock) == ReadAt(r.versions, k, readTS) ||
      (det.Shipped? && ReadAt(r.versions, k, clock).None?)
  {
    hide LastWrite, WriteAll;
    var st := WriteAll(r, debris, clock + 1);
    WriteAllContents(r, debris, clock + 1);
    NewestTsBound(st.versions, k, st.maxVersion);
    NewestTsBound(r.versions, k, clock);
    if !Writes(debris, k) {
      ReadAtFrame(st.versions, r.versions, k, st.maxVersion);
      ReadAtGap(r.versions, k, r.maxVersion, clock);
      ReadAtGap(r.versions, k, r.maxVersion, st.maxVersion);
      if !(det.Shipped? && ReadAt(r.versions, k, clock).None?) { ReadAtGap(r.versions, k, readTS, clock); }
    }
  }

  /** What an accepted writer overwrites is what its snapshot showed it, except that the shipped check also lets it
      overwrite a delete. */
  lemma {:induction false} AcceptedKeyUnchanged(det: Detector, s: State, tr: Track, k: Key)
    requires AnyInv(det, s, tr) && s.lock.Flushing? && Writes(s.txns[s.lock.tid].muts, k)
    requires HarmlessTo(s.base, tr.advances, k) && (det.Shipped? ==> !LeftDeleted(tr, k))
    ensures var h := Intended(tr.advances);
      SerialRead(s.base, h, k) == ReadAt(s.store.versions, k, s.txns[s.lock.tid].readTS) ||
      (det.Shipped? && SerialRead(s.base, h, k).None?)
  {
    hide HistoryOk, Replay, Published, SerialRead, HarmlessTo, Overlay, Conflicts, WriteAll, Actual;
    var x := s.txns[s.lock.tid];
    var r := Replay(s.base, Actual(tr.advances));
    ReplayShape(s.base, Actual(tr.advances));
    var j :| 0 <= j < |x.muts| && x.muts[j].key == k;
    assert !Conflicts(det, CheckedStore(s, tr), x.muts[j].key, x.readTS);
    AcceptedRead(det, r, tr.debris, s.clock, k, x.readTS);
    ReadBelowWriteAll(r, tr.debris + InFlight(s), s.clock + 1, k, s.clock);
    ReadBelowWriteAll(r, tr.debris + InFlight(s), s.clock + 1, k, x.readTS);
    ReadsIntended(det, s, tr, s.clock, k);
    assert Intended(tr.advances)[..|tr.advances|] == Intended(tr.advances);
  }
}
