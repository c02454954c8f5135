/** Copy-on-write branches: the scan that lays a branch over main (engine/internal/executor/scan.go)
    and MERGE, which pushes the branch's rows down (engine/internal/branch/merge.go). Tombstone values
    hide main's row on the branch. */
module Branches {
  import opened Bytes
  import opened Keys
  import RC = RowCodec
  import V = Versions

  /** What a transaction reads at each key. */
  type View = Bytes -> Option<Bytes>

  type Entry = (Bytes, Bytes)

  const OTEL_SPANS: Bytes := [111, 116, 101, 108, 95, 115, 112, 97, 110, 115]

  /** `branchLocal`: no fall-through to main. */
  predicate BranchLocal(table: Bytes) {
    table == OTEL_SPANS
  }

  predicate IsMain(branch: Bytes) {
    branch == MAIN_NAME
  }

  /** An iterator over a prefix: each key with a value, once. */
  ghost predicate Iterates(es: seq<Entry>, v: View, prefix: Bytes) {
    && (forall i :: 0 <= i < |es| ==> HasPrefix(es[i].0, prefix) && v(es[i].0) == Some(es[i].1))
    && (forall i, j :: 0 <= i < j < |es| ==> es[i].0 != es[j].0)
    && (forall k :: HasPrefix(k, prefix) && v(k).Some? ==> exists i :: 0 <= i < |es| && es[i].0 == k)
  }

  // ---- The scan ----

  /** `tail` is what follows the table's prefix, the same on every branch. */
  datatype ScanRow = ScanRow(key: Bytes, tail: Bytes, cells: seq<RC.Datum>)

  function Live(raw: Option<Bytes>): Option<Bytes> {
    if raw.Some? && RC.IsTombstone(raw.value) then None else raw
  }

  /** The row a branch shows at a key tail: its own, unless it has none and the table falls through. */
  function Shown(v: View, ns: Bytes, branch: Bytes, table: Bytes, tail: Bytes): Option<Bytes> {
    var own := v(RowPrefix(ns, branch, table) + tail);
    if own.Some? then Live(own)
    else if IsMain(branch) || BranchLocal(table) then None
    else Live(v(RowPrefix(ns, MAIN_NAME, table) + tail))
  }

  /** A live entry of the branch is shown, a tombstone hides the row, and where the branch has no entry it shows what
      main shows, except of spans; main shows its own live entries. */
  lemma {:induction false} ShownMeans(v: View, ns: Bytes, branch: Bytes, table: Bytes, tail: Bytes)
    ensures var own := v(RowPrefix(ns, branch, table) + tail);
      && (own.Some? && own.value != [] && own.value[0] == 0 ==> Shown(v, ns, branch, table, tail) == None)
      && (own.Some? && (own.value == [] || own.value[0] != 0) ==> Shown(v, ns, branch, table, tail) == own)
      && (own.None? && branch != MAIN_NAME && table != OTEL_SPANS ==>
            Shown(v, ns, branch, table, tail) == Shown(v, ns, MAIN_NAME, table, tail))
      && (own.None? && (branch == MAIN_NAME || table == OTEL_SPANS) ==> Shown(v, ns, branch, table, tail) == None)
  {
    hide RowPrefix;
  }

  /** Exactly the shown rows, each once, decoded. */
  ghost predicate ScanOf(v: View, ns: Bytes, branch: Bytes, table: Bytes, n: nat, rows: seq<ScanRow>) {
    && (forall i :: 0 <= i < |rows| ==> RowShown(v, ns, branch, table, n, rows[i]))
    && (forall i, j :: 0 <= i < j < |rows| ==> rows[i].tail != rows[j].tail)
    && (forall t :: Shown(v, ns, branch, table, t).Some? ==> HasTail(rows, t))
  }

  ghost predicate RowShown(v: View, ns: Bytes, branch: Bytes, table: Bytes, n: nat, row: ScanRow) {
    && (row.key == RowPrefix(ns, branch, table) + row.tail || row.key == RowPrefix(ns, MAIN_NAME, table) + row.tail)
    && Shown(v, ns, branch, table, row.tail).Some?
    && RC.DecodeRow(Shown(v, ns, branch, table, row.tail).value, n) == Some(row.cells)
  }

  ghost predicate HasTail(rows: seq<ScanRow>, t: Bytes) {
    exists i :: 0 <= i < |rows| && rows[i].tail == t
  }

  /** Some shown row does not decode. */
  ghost predicate BadRow(v: View, ns: Bytes, branch: Bytes, table: Bytes, n: nat) {
    exists t :: Shown(v, ns, branch, table, t).Some? && RC.DecodeRow(Shown(v, ns, branch, table, t).value, n).None?
  }

  /** The shown rows among the tails done so far have been collected. */
  ghost predicate Collected(v: View, ns: Bytes, branch: Bytes, table: Bytes, n: nat, rows: seq<ScanRow>,
                            done: set<Bytes>) {
    && (forall i :: 0 <= i < |rows| ==> RowShown(v, ns, branch, table, n, rows[i]) && rows[i].tail in done)
    && (forall i, j :: 0 <= i < j < |rows| ==> rows[i].tail != rows[j].tail)
    && (forall t :: t in done && Shown(v, ns, branch, table, t).Some? ==> HasTail(rows, t))
  }

  /** `done` holds the tails of the first `n` entries, and besides them only `before`. */
  ghost predicate TailsTo(es: seq<Entry>, n: nat, prefix: Bytes, before: set<Bytes>, done: set<Bytes>) {
    && n <= |es| && before <= done
    && (forall i :: 0 <= i < n ==> |prefix| <= |es[i].0| && es[i].0[|prefix|..] in done)
    && (forall t :: t in done && t !in before ==> exists i :: 0 <= i < n && es[i].0 == prefix + t)
  }

  lemma {:induction false} TailsStep(es: seq<Entry>, v: View, n: nat, prefix: Bytes, before: set<Bytes>,
                                     done: set<Bytes>)
    requires TailsTo(es, n, prefix, before, done) && n < |es| && Iterates(es, v, prefix)
    ensures es[n].0 == prefix + es[n].0[|prefix|..]
    ensures TailsTo(es, n + 1, prefix, before, done + {es[n].0[|prefix|..]})
    ensures es[n].0[|prefix|..] !in before ==> es[n].0[|prefix|..] !in done
  {
    var t := es[n].0[|prefix|..];
    assert es[n].0 == prefix + t;
    assert forall i :: 0 <= i < n ==> es[i].0 != es[n].0;
  }

  lemma {:induction false} TailsAll(es: seq<Entry>, v: View, prefix: Bytes, before: set<Bytes>, done: set<Bytes>,
                                    t: Bytes)
    requires TailsTo(es, |es|, prefix, before, done) && Iterates(es, v, prefix)
    ensures v(prefix + t).Some? ==> t in done
    ensures t in done && t !in before ==> v(prefix + t).Some?
  {
    if v(prefix + t).Some? {
      assert HasPrefix(prefix + t, prefix);
      var i :| 0 <= i < |es| && es[i].0 == prefix + t;
      assert es[i].0[|prefix|..] == t;
    }
  }

  lemma {:induction false} CollectHidden(v: View, ns: Bytes, branch: Bytes, table: Bytes, n: nat, rows: seq<ScanRow>,
                                         done: set<Bytes>, t: Bytes)
    requires Collected(v, ns, branch, table, n, rows, done) && (t in done || Shown(v, ns, branch, table, t).None?)
    ensures Collected(v, ns, branch, table, n, rows, done + {t})
  {
    hide Shown, RowShown;
  }

  lemma {:induction false} CollectRow(v: View, ns: Bytes, branch: Bytes, table: Bytes, n: nat, rows: seq<ScanRow>,
                                      done: set<Bytes>, row: ScanRow)
    requires Collected(v, ns, branch, table, n, rows, done) && row.tail !in done
    requires RowShown(v, ns, branch, table, n, row)
    ensures Collected(v, ns, branch, table, n, rows + [row], done + {row.tail})
  {
    hide Shown, RowShown;
    assert (rows + [row])[|rows|] == row;
    forall t | t in done + {row.tail} && Shown(v, ns, branch, table, t).Some? ensures HasTail(rows + [row], t) {
      if t in done {
        var i :| 0 <= i < |rows| && rows[i].tail == t;
        assert (rows + [row])[i].tail == t;
      }
    }
  }

  /** `scanTable`: the branch's own entries, then main's entries the branch does not have. */
  method ScanTable(ghost v: View, ns: Bytes, branch: Bytes, table: Bytes, n: nat, own: seq<Entry>, parent: seq<Entry>)
    returns (r: Option<seq<ScanRow>>)
    requires Iterates(own, v, RowPrefix(ns, branch, table))
    requires Iterates(parent, v, RowPrefix(ns, MAIN_NAME, table))
    ensures r.Some? ==> ScanOf(v, ns, branch, table, n, r.value)
    ensures r.None? <==> BadRow(v, ns, branch, table, n)
  {
    hide RowPrefix, RC.DecodeRow, RC.IsTombstone, Collected, TailsTo, HasTail, Iterates;
    var prefix, rows, seen := RowPrefix(ns, branch, table), [], {};
    Nothing(v, ns, branch, table, n, own, prefix, {});
    for i := 0 to |own|
      invariant TailsTo(own, i, prefix, {}, seen) && Collected(v, ns, branch, table, n, rows, seen)
    {
      EntryIs(own, v, prefix, i);
      TailsStep(own, v, i, prefix, {}, seen);
      var tail := own[i].0[|prefix|..];
      ghost var before := seen;
      seen := seen + {tail};
      if RC.IsTombstone(own[i].1) {
        CollectHidden(v, ns, branch, table, n, rows, before, tail);
        continue;
      }
      var cells := RC.DecodeRow(own[i].1, n);
      if cells.None? {
        assert Shown(v, ns, branch, table, tail) == Some(own[i].1);
        return None;
      }
      var row := ScanRow(own[i].0, tail, cells.value);
      CollectRow(v, ns, branch, table, n, rows, before, row);
      rows := rows + [row];
    }
    forall t ensures v(RowPrefix(ns, branch, table) + t).Some? <==> t in seen { TailsAll(own, v, prefix, {}, seen, t); }
    if branch == MAIN_NAME || BranchLocal(table) {
      CollectedAll(v, ns, branch, table, n, rows, seen);
      return Some(rows);
    }
    prefix := RowPrefix(ns, MAIN_NAME, table);
    ghost var done := seen;
    NoTails(parent, prefix, seen);
    for i := 0 to |parent|
      invariant TailsTo(parent, i, prefix, seen, done) && Collected(v, ns, branch, table, n, rows, done)
    {
      EntryIs(parent, v, prefix, i);
      TailsStep(parent, v, i, prefix, seen, done);
      var tail := parent[i].0[|prefix|..];
      ghost var before := done;
      done := done + {tail};
      if tail in seen || RC.IsTombstone(parent[i].1) {
        InBefore(parent, i, prefix, seen, before);
        CollectHidden(v, ns, branch, table, n, rows, before, tail);
        continue;
      }
      var cells := RC.DecodeRow(parent[i].1, n);
      if cells.None? {
        assert Shown(v, ns, branch, table, tail) == Some(parent[i].1);
        return None;
      }
      var row := ScanRow(parent[i].0, tail, cells.value);
      CollectRow(v, ns, branch, table, n, rows, before, row);
      rows := rows + [row];
    }
    forall t ensures v(prefix + t).Some? ==> t in done { TailsAll(parent, v, prefix, seen, done, t); }
    InBefore(parent, |parent|, prefix, seen, done);
    CollectedAll(v, ns, branch, table, n, rows, done);
    return Some(rows);
  }

  lemma {:induction false} EntryIs(es: seq<Entry>, v: View, prefix: Bytes, i: nat)
    requires Iterates(es, v, prefix) && i < |es|
    ensures HasPrefix(es[i].0, prefix) && v(es[i].0) == Some(es[i].1)
  {
  }

  lemma {:induction false} NoTails(es: seq<Entry>, prefix: Bytes, before: set<Bytes>)
    ensures TailsTo(es, 0, prefix, before, before)
  {
  }

  lemma {:induction false} Nothing(v: View, ns: Bytes, branch: Bytes, table: Bytes, n: nat, es: seq<Entry>,
                                   prefix: Bytes, before: set<Bytes>)
    requires before == {}
    ensures TailsTo(es, 0, prefix, before, before) && Collected(v, ns, branch, table, n, [], before)
  {
  }

  lemma {:induction false} InBefore(es: seq<Entry>, n: nat, prefix: Bytes, before: set<Bytes>, done: set<Bytes>)
    requires TailsTo(es, n, prefix, before, done)
    ensures before <= done
  {
  }

  lemma {:induction false} CollectedAll(v: View, ns: Bytes, branch: Bytes, table: Bytes, n: nat, rows: seq<ScanRow>,
                                        done: set<Bytes>)
    requires Collected(v, ns, branch, table, n, rows, done)
    requires forall t :: Shown(v, ns, branch, table, t).Some? ==> t in done
    ensures ScanOf(v, ns, branch, table, n, rows) && !BadRow(v, ns, branch, table, n)
  {
    hide Shown;
  }

  // ---- MERGE ----

  predicate OccursAt(b: Bytes, sub: Bytes, i: nat) {
    i + |sub| <= |b| && b[i..i + |sub|] == sub
  }

  method LastIndex(b: Bytes, sub: Bytes) returns (i: int)
    ensures i >= -1 && (i >= 0 ==> OccursAt(b, sub, i))
    ensures forall j: nat :: j > i ==> !OccursAt(b, sub, j)
  {
    i := |b| - |sub|;
    while i >= 0
      invariant forall j: nat :: j > i ==> !OccursAt(b, sub, j)
    {
      if b[i..i + |sub|] == sub {
        return;
      }
      i := i - 1;
    }
    i := -1;
  }

  /** `dataRoot` cuts the row prefix of a table "x" down to the branch's data root. */
  method DataRootOf(ns: Bytes, branch: Bytes) returns (root: Bytes)
    ensures root == DataRoot(ns, branch)
  {
    var marker := DATA + [SLASH];
    var prefix := RowPrefix(ns, branch, [120]);
    var i := LastIndex(prefix, marker);
    MarkerIsLast(ns, branch);
    root := if i >= 0 then prefix[..i + |marker|] else prefix;
  }

  lemma {:induction false} MarkerIsLast(ns: Bytes, branch: Bytes)
    ensures
      var root, p, marker := DataRoot(ns, branch), RowPrefix(ns, branch, [120]), DATA + [SLASH];
      && |marker| <= |root| <= |p| && p[..|root|] == root && OccursAt(p, marker, |root| - |marker|)
      && forall j: nat :: j > |root| - |marker| ==> !OccursAt(p, marker, j)
  {
    var head := NsRoot(ns) + BranchSegment(branch);
    var root, p, marker := DataRoot(ns, branch), RowPrefix(ns, branch, [120]), DATA + [SLASH];
    assert root == head + marker && p == root + [120, SLASH];
    assert p[|head| + 1] == 100 && p[|head| + 2] == 97;
    forall j: nat | j > |head| ensures !OccursAt(p, marker, j) {
      if j + |marker| <= |p| {
        assert p[j..j + |marker|][0] == p[j];
      }
    }
  }

  datatype MergeCounts = MergeCounts(merged: nat, deleted: nat)

  /** What main holds at a key after the branch's entries have been pushed down. */
  function Merged(v: View, ns: Bytes, src: Bytes, k: Bytes): Option<Bytes> {
    var root := DataRoot(ns, MAIN_NAME);
    if !HasPrefix(k, root) then v(k)
    else
      var own := v(DataRoot(ns, src) + k[|root|..]);
      if own.Some? then Live(own) else v(k)
  }

  /** A transaction's view once its buffered mutations are committed. */
  function Committed(v: View, muts: seq<V.Mutation>): View {
    k => V.Overlay(muts, k, v(k))
  }

  /** Where a branch entry goes on main. */
  function ParentKey(ns: Bytes, src: Bytes, k: Bytes): Bytes
    requires HasPrefix(k, DataRoot(ns, src))
  {
    DataRoot(ns, MAIN_NAME) + k[|DataRoot(ns, src)|..]
  }

  /** The ops of the first `n` entries do what `Merged` says for the keys they go to, and nothing else. */
  ghost predicate Pushed(v: View, ns: Bytes, src: Bytes, es: seq<Entry>, n: nat, ops: seq<V.Mutation>) {
    forall k :: V.Overlay(ops, k, v(k)) == if Target(ns, src, es, n, k) then Merged(v, ns, src, k) else v(k)
  }

  ghost predicate Target(ns: Bytes, src: Bytes, es: seq<Entry>, n: nat, k: Bytes) {
    exists i :: 0 <= i < n && i < |es| && HasPrefix(es[i].0, DataRoot(ns, src)) && k == ParentKey(ns, src, es[i].0)
  }

  ghost function Deletes(ops: seq<V.Mutation>): set<nat> {
    set i: nat | i < |ops| && ops[i].delete
  }

  lemma {:induction false} DeletesSnoc(ops: seq<V.Mutation>, op: V.Mutation)
    ensures |Deletes(ops + [op])| == |Deletes(ops)| + if op.delete then 1 else 0
  {
    assert Deletes(ops + [op]) == Deletes(ops) + if op.delete then {|ops|} else {};
  }

  /** `Merge`: one pass over the branch's data keys, collecting writes and deletes for main. */
  method Merge(v: View, ns: Bytes, src: Bytes, es: seq<Entry>) returns (ops: seq<V.Mutation>, counts: MergeCounts)
    requires Iterates(es, v, DataRoot(ns, src))
    ensures forall k :: Committed(v, ops)(k) == Merged(v, ns, src, k)
    ensures counts.merged + counts.deleted == |ops| && counts.deleted == |Deletes(ops)|
    ensures forall i :: 0 <= i < |ops| ==> HasPrefix(ops[i].key, DataRoot(ns, MAIN_NAME))
  {
    hide DataRoot, RC.IsTombstone, Iterates, Pushed;
    ops, counts := [], MergeCounts(0, 0);
    assert Deletes([]) == {};
    NothingPushed(v, ns, src, es);
    for i := 0 to |es|
      invariant Pushed(v, ns, src, es, i, ops) && counts.merged + counts.deleted == |ops|
      invariant counts.deleted == |Deletes(ops)|
      invariant forall j :: 0 <= j < |ops| ==> HasPrefix(ops[j].key, DataRoot(ns, MAIN_NAME))
    {
      EntryIs(es, v, DataRoot(ns, src), i);
      var parentKey := ParentKey(ns, src, es[i].0);
      var parentHas := v(parentKey).Some?;
      PushOne(v, ns, src, es, i, ops);
      if RC.IsTombstone(es[i].1) {
        if parentHas {
          DeletesSnoc(ops, V.Mutation(parentKey, [], true));
          ops := ops + [V.Mutation(parentKey, [], true)];
          counts := counts.(deleted := counts.deleted + 1);
        }
        continue;
      }
      DeletesSnoc(ops, V.Mutation(parentKey, es[i].1, false));
      ops := ops + [V.Mutation(parentKey, es[i].1, false)];
      counts := counts.(merged := counts.merged + 1);
    }
    AllPushed(v, ns, src, es, ops);
  }

  lemma {:induction false} NothingPushed(v: View, ns: Bytes, src: Bytes, es: seq<Entry>)
    ensures Pushed(v, ns, src, es, 0, [])
  {
  }

  /** The branch entry behind a main key. */
  lemma {:induction false} TargetSource(v: View, ns: Bytes, src: Bytes, es: seq<Entry>, k: Bytes)
    requires Iterates(es, v, DataRoot(ns, src))
    ensures Merged(v, ns, src, k) == v(k) || Target(ns, src, es, |es|, k)
  {
    hide DataRoot;
    var root := DataRoot(ns, MAIN_NAME);
    if HasPrefix(k, root) {
      var b := DataRoot(ns, src) + k[|root|..];
      if v(b).Some? {
        assert HasPrefix(b, DataRoot(ns, src));
        var i :| 0 <= i < |es| && es[i].0 == b;
        assert b[|DataRoot(ns, src)|..] == k[|root|..];
        assert k == ParentKey(ns, src, es[i].0);
      }
    }
  }

  lemma {:induction false} AllPushed(v: View, ns: Bytes, src: Bytes, es: seq<Entry>, ops: seq<V.Mutation>)
    requires Pushed(v, ns, src, es, |es|, ops) && Iterates(es, v, DataRoot(ns, src))
    ensures forall k :: Committed(v, ops)(k) == Merged(v, ns, src, k)
  {
    hide DataRoot, Merged, V.Overlay, Target, Iterates;
    forall k ensures V.Overlay(ops, k, v(k)) == Merged(v, ns, src, k) {
      TargetSource(v, ns, src, es, k);
    }
  }

  /** What main must hold at one entry's target. */
  lemma {:induction false} MergedAt(v: View, ns: Bytes, src: Bytes, b: Bytes, raw: Bytes)
    requires HasPrefix(b, DataRoot(ns, src)) && v(b) == Some(raw)
    ensures Merged(v, ns, src, ParentKey(ns, src, b)) == Live(Some(raw))
  {
    hide DataRoot;
    var root := DataRoot(ns, MAIN_NAME);
    var k := ParentKey(ns, src, b);
    assert k[|root|..] == b[|DataRoot(ns, src)|..];
    assert b == DataRoot(ns, src) + b[|DataRoot(ns, src)|..];
  }

  lemma {:induction false} TargetStep(ns: Bytes, src: Bytes, es: seq<Entry>, n: nat, k: Bytes)
    requires n < |es| && HasPrefix(es[n].0, DataRoot(ns, src))
    ensures Target(ns, src, es, n + 1, k) <==> Target(ns, src, es, n, k) || k == ParentKey(ns, src, es[n].0)
  {
    hide DataRoot, ParentKey;
  }

  lemma {:induction false} PushOne(v: View, ns: Bytes, src: Bytes, es: seq<Entry>, n: nat, ops: seq<V.Mutation>)
    requires Pushed(v, ns, src, es, n, ops) && n < |es|
    requires HasPrefix(es[n].0, DataRoot(ns, src)) && v(es[n].0) == Some(es[n].1)
    ensures RC.IsTombstone(es[n].1) && v(ParentKey(ns, src, es[n].0)).None? ==> Pushed(v, ns, src, es, n + 1, ops)
    ensures RC.IsTombstone(es[n].1) ==>
      Pushed(v, ns, src, es, n + 1, ops + [V.Mutation(ParentKey(ns, src, es[n].0), [], true)])
    ensures !RC.IsTombstone(es[n].1) ==>
      Pushed(v, ns, src, es, n + 1, ops + [V.Mutation(ParentKey(ns, src, es[n].0), es[n].1, false)])
    ensures HasPrefix(ParentKey(ns, src, es[n].0), DataRoot(ns, MAIN_NAME))
  {
    hide DataRoot, ParentKey, Merged, V.Overlay, Target, RC.IsTombstone;
    var pk := ParentKey(ns, src, es[n].0);
    var del, put := V.Mutation(pk, [], true), V.Mutation(pk, es[n].1, false);
    MergedAt(v, ns, src, es[n].0, es[n].1);
    forall k
      ensures Target(ns, src, es, n + 1, k) <==> Target(ns, src, es, n, k) || k == pk
      ensures V.Overlay(ops + [del], k, v(k)) == if k == pk then None else V.Overlay(ops, k, v(k))
      ensures V.Overlay(ops + [put], k, v(k)) == if k == pk then Some(es[n].1) else V.Overlay(ops, k, v(k))
    {
      TargetStep(ns, src, es, n, k);
      V.OverlaySnoc(ops, del, k, v(k));
      V.OverlaySnoc(ops, put, k, v(k));
    }
    ParentKeyPrefix(ns, src, es[n].0);
  }

  lemma {:induction false} ParentKeyPrefix(ns: Bytes, src: Bytes, k: Bytes)
    requires HasPrefix(k, DataRoot(ns, src))
    ensures HasPrefix(ParentKey(ns, src, k), DataRoot(ns, MAIN_NAME))
  {
    hide DataRoot;
  }

  // ---- What a merge means ----

  /** The view after merging. */
  function AfterMerge(v: View, ns: Bytes, src: Bytes): View {
    k => Merged(v, ns, src, k)
  }

  lemma {:induction false} RowKeyUnderRoot(ns: Bytes, branch: Bytes, table: Bytes, tail: Bytes)
    ensures RowPrefix(ns, branch, table) + tail == DataRoot(ns, branch) + (table + [SLASH] + tail)
    ensures HasPrefix(RowPrefix(ns, branch, table) + tail, DataRoot(ns, branch))
    ensures (RowPrefix(ns, branch, table) + tail)[|DataRoot(ns, branch)|..] == table + [SLASH] + tail
  {
    hide DataRoot, RowPrefix;
    RowKeyShape(ns, branch, table, []);
    var root := DataRoot(ns, branch);
    assert root + (table + [SLASH]) + tail == root + (table + [SLASH] + tail);
  }

  lemma {:induction false} MergedRow(v: View, ns: Bytes, src: Bytes, table: Bytes, tail: Bytes)
    requires src != MAIN_NAME && src != []
    ensures Merged(v, ns, src, RowPrefix(ns, MAIN_NAME, table) + tail) ==
      if v(RowPrefix(ns, src, table) + tail).Some? then Live(v(RowPrefix(ns, src, table) + tail))
      else v(RowPrefix(ns, MAIN_NAME, table) + tail)
    ensures Merged(v, ns, src, RowPrefix(ns, src, table) + tail) == v(RowPrefix(ns, src, table) + tail)
  {
    hide DataRoot, RowPrefix;
    RowKeyUnderRoot(ns, MAIN_NAME, table, tail);
    RowKeyUnderRoot(ns, src, table, tail);
    MainAndBranchDisjoint(ns, src, RowPrefix(ns, src, table) + tail);
  }

  /** A merge makes main show the branch's row wherever the branch has an entry, and leaves the rest. */
  lemma {:induction false} MainAfterMerge(v: View, ns: Bytes, src: Bytes, table: Bytes, tail: Bytes)
    requires src != MAIN_NAME && src != []
    ensures Shown(AfterMerge(v, ns, src), ns, MAIN_NAME, table, tail) ==
      if v(RowPrefix(ns, src, table) + tail).Some? then Shown(v, ns, src, table, tail)
      else Shown(v, ns, MAIN_NAME, table, tail)
  {
    hide RowPrefix, Merged, RC.IsTombstone;
    MergedRow(v, ns, src, table, tail);
  }

  /** After the merge main shows exactly what the branch showed before. */
  lemma {:induction false} MergePushesDown(v: View, ns: Bytes, src: Bytes, table: Bytes, tail: Bytes)
    requires src != MAIN_NAME && src != [] && !BranchLocal(table)
    ensures Shown(AfterMerge(v, ns, src), ns, MAIN_NAME, table, tail) == Shown(v, ns, src, table, tail)
  {
    hide RowPrefix, RC.IsTombstone;
    MainAfterMerge(v, ns, src, table, tail);
  }

  /** For a branch-local table that holds exactly when the branch covers every row main shows. */
  lemma {:induction false} BranchLocalMergeIff(v: View, ns: Bytes, src: Bytes, table: Bytes)
    requires src != MAIN_NAME && src != [] && BranchLocal(table)
    ensures (forall t :: Shown(AfterMerge(v, ns, src), ns, MAIN_NAME, table, t) == Shown(v, ns, src, table, t)) <==>
            (forall t :: Shown(v, ns, MAIN_NAME, table, t).Some? ==> v(RowPrefix(ns, src, table) + t).Some?)
  {
    hide RowPrefix, RC.IsTombstone, AfterMerge;
    forall t
      ensures Shown(AfterMerge(v, ns, src), ns, MAIN_NAME, table, t) == Shown(v, ns, src, table, t) <==>
              (Shown(v, ns, MAIN_NAME, table, t).Some? ==> v(RowPrefix(ns, src, table) + t).Some?)
    {
      MainAfterMerge(v, ns, src, table, t);
    }
  }

  /** The merge changes nothing main shows of the table. */
  ghost predicate MainKept(v: View, ns: Bytes, src: Bytes, table: Bytes) {
    forall t :: Shown(AfterMerge(v, ns, src), ns, MAIN_NAME, table, t) == Shown(v, ns, MAIN_NAME, table, t)
  }

  /** If the branch has an entry there, it shows what main shows. */
  predicate EntryShowsMain(v: View, ns: Bytes, src: Bytes, table: Bytes, t: Bytes) {
    v(RowPrefix(ns, src, table) + t).Some? ==> Shown(v, ns, src, table, t) == Shown(v, ns, MAIN_NAME, table, t)
  }

  /** Whether a merge leaves a table of main alone, as is documented of spans: it does exactly when, wherever
      the branch has an entry, it shows what main shows. */
  lemma {:induction false} MergeKeepsMainIff(v: View, ns: Bytes, src: Bytes, table: Bytes)
    requires src != MAIN_NAME && src != []
    ensures MainKept(v, ns, src, table) <==> forall t :: EntryShowsMain(v, ns, src, table, t)
  {
    hide RowPrefix, RC.IsTombstone, AfterMerge, Shown;
    forall t
      ensures Shown(AfterMerge(v, ns, src), ns, MAIN_NAME, table, t) == Shown(v, ns, MAIN_NAME, table, t) <==>
        EntryShowsMain(v, ns, src, table, t)
    {
      MainAfterMerge(v, ns, src, table, t);
    }
  }

  /** A span recorded on the branch alone is on main after the merge. */
  lemma {:induction false} SpanIsMerged(ns: Bytes, src: Bytes, tail: Bytes, raw: Bytes)
    requires src != MAIN_NAME && src != [] && !RC.IsTombstone(raw)
    ensures
      var v: View := k => if k == RowPrefix(ns, src, OTEL_SPANS) + tail then Some(raw) else None;
      && Shown(v, ns, MAIN_NAME, OTEL_SPANS, tail) == None
      && Shown(AfterMerge(v, ns, src), ns, MAIN_NAME, OTEL_SPANS, tail) == Some(raw)
  {
    hide RowPrefix, DataRoot, RC.IsTombstone, AfterMerge;
    var v: View := k => if k == RowPrefix(ns, src, OTEL_SPANS) + tail then Some(raw) else None;
    var key := RowPrefix(ns, MAIN_NAME, OTEL_SPANS) + tail;
    RowKeyUnderRoot(ns, MAIN_NAME, OTEL_SPANS, tail);
    RowKeyUnderRoot(ns, src, OTEL_SPANS, tail);
    MainAndBranchDisjoint(ns, src, key);
    MainAfterMerge(v, ns, src, OTEL_SPANS, tail);
  }

  /** The branch itself shows the same rows as before. */
  lemma {:induction false} MergeKeepsBranch(v: View, ns: Bytes, src: Bytes, table: Bytes, tail: Bytes)
    requires src != MAIN_NAME && src != []
    ensures Shown(AfterMerge(v, ns, src), ns, src, table, tail) == Shown(v, ns, src, table, tail)
  {
    hide RowPrefix, Merged, RC.IsTombstone;
    MergedRow(v, ns, src, table, tail);
  }

  /** Merging again changes no key at all. */
  lemma {:induction false} MergeIsIdempotent(v: View, ns: Bytes, src: Bytes, k: Bytes)
    requires src != MAIN_NAME && src != []
    ensures AfterMerge(AfterMerge(v, ns, src), ns, src)(k) == AfterMerge(v, ns, src)(k)
  {
    hide DataRoot, RC.IsTombstone;
    var root := DataRoot(ns, MAIN_NAME);
    if HasPrefix(k, root) {
      var b := DataRoot(ns, src) + k[|root|..];
      assert HasPrefix(b, DataRoot(ns, src));
      MainAndBranchDisjoint(ns, src, b);
    }
  }

  // ---- From shown rows to scan results ----

  function Pairs(rows: seq<ScanRow>): (r: seq<(Bytes, seq<RC.Datum>)>)
    ensures |r| == |rows| && forall i :: 0 <= i < |rows| ==> r[i] == (rows[i].tail, rows[i].cells)
  {
    seq(|rows|, i requires 0 <= i < |rows| => (rows[i].tail, rows[i].cells))
  }

  lemma {:induction false} CountDistinct<T>(s: seq<T>, x: T)
    requires forall i, j :: 0 <= i < j < |s| ==> s[i] != s[j]
    ensures multiset(s)[x] == if x in s then 1 else 0
  {
    if s != [] {
      var n := |s| - 1;
      CountDistinct(s[..n], x);
      assert s == s[..n] + [s[n]];
    }
  }

  lemma {:induction false} ScansAgree(v: View, w: View, ns: Bytes, b: Bytes, c: Bytes, table: Bytes, n: nat,
                                      r: seq<ScanRow>, s: seq<ScanRow>)
    requires ScanOf(v, ns, b, table, n, r) && ScanOf(w, ns, c, table, n, s)
    requires forall t :: Shown(v, ns, b, table, t) == Shown(w, ns, c, table, t)
    ensures forall x :: x in Pairs(r) ==> x in Pairs(s)
  {
    hide Shown, RC.DecodeRow, RowPrefix;
    forall x | x in Pairs(r) ensures x in Pairs(s) {
      var i :| 0 <= i < |r| && Pairs(r)[i] == x;
      assert RowShown(v, ns, b, table, n, r[i]) && HasTail(s, r[i].tail);
      var j :| 0 <= j < |s| && s[j].tail == r[i].tail;
      assert RowShown(w, ns, c, table, n, s[j]);
      assert Pairs(s)[j] == x;
    }
  }

  lemma {:induction false} SameScans(v: View, w: View, ns: Bytes, b: Bytes, c: Bytes, table: Bytes, n: nat,
                                     r: seq<ScanRow>, s: seq<ScanRow>)
    requires ScanOf(v, ns, b, table, n, r) && ScanOf(w, ns, c, table, n, s)
    requires forall t :: Shown(v, ns, b, table, t) == Shown(w, ns, c, table, t)
    ensures multiset(Pairs(r)) == multiset(Pairs(s))
  {
    hide Shown, RowShown, HasTail;
    ScansAgree(v, w, ns, b, c, table, n, r, s);
    ScansAgree(w, v, ns, c, b, table, n, s, r);
    forall x ensures multiset(Pairs(r))[x] == multiset(Pairs(s))[x] {
      CountDistinct(Pairs(r), x);
      CountDistinct(Pairs(s), x);
    }
  }

  /** The rows a scan of main returns after the merge are the rows the branch's scan returned before it. */
  lemma {:induction false} MergedScanIsBranchScan(v: View, ns: Bytes, src: Bytes, table: Bytes, n: nat,
                                                  before: seq<ScanRow>, after: seq<ScanRow>)
    requires src != MAIN_NAME && src != [] && !BranchLocal(table)
    requires ScanOf(v, ns, src, table, n, before) && ScanOf(AfterMerge(v, ns, src), ns, MAIN_NAME, table, n, after)
    ensures multiset(Pairs(before)) == multiset(Pairs(after))
  {
    hide Shown, ScanOf, AfterMerge;
    forall t ensures Shown(v, ns, src, table, t) == Shown(AfterMerge(v, ns, src), ns, MAIN_NAME, table, t) {
      MergePushesDown(v, ns, src, table, t);
    }
    SameScans(v, AfterMerge(v, ns, src), ns, src, MAIN_NAME, table, n, before, after);
  }

  // ---- Writes on a branch ----

  /** `branchRowKey`: from the primary key, or the key the row was read from when there is none. */
  function BranchRowKey(ns: Bytes, branch: Bytes, table: Bytes, pk: Option<Bytes>, existing: Bytes): Bytes {
    if pk.Some? then RowKey(ns, branch, table, pk.value) else existing
  }

  /** Writes under a branch's data root never change what main shows. */
  lemma {:induction false} BranchWritesKeepMain(v: View, ns: Bytes, branch: Bytes, muts: seq<V.Mutation>, table: Bytes,
                                                tail: Bytes)
    requires branch != MAIN_NAME && branch != []
    requires forall i :: 0 <= i < |muts| ==> HasPrefix(muts[i].key, DataRoot(ns, branch))
    ensures Shown(Committed(v, muts), ns, MAIN_NAME, table, tail) == Shown(v, ns, MAIN_NAME, table, tail)
  {
    hide DataRoot, RowPrefix, RC.IsTombstone;
    var k := RowPrefix(ns, MAIN_NAME, table) + tail;
    RowKeyUnderRoot(ns, MAIN_NAME, table, tail);
    MainAndBranchDisjoint(ns, branch, k);
    NotWritten(muts, k);
  }

  lemma {:induction false} NotWritten(muts: seq<V.Mutation>, k: Bytes)
    requires forall i :: 0 <= i < |muts| ==> muts[i].key != k
    ensures V.LastWrite(muts, k).None?
  {
    if muts != [] {
      NotWritten(muts[..|muts| - 1], k);
    }
  }

  /** A branch statement's write lands on the branch if and only if the row has a primary key or was read
      from the branch itself. */
  lemma {:induction false} WriteIsLocalIff(ns: Bytes, branch: Bytes, table: Bytes, pk: Option<Bytes>, existing: Bytes)
    ensures HasPrefix(BranchRowKey(ns, branch, table, pk, existing), DataRoot(ns, branch)) <==>
      pk.Some? || HasPrefix(existing, DataRoot(ns, branch))
  {
    hide DataRoot, PkTail, RowKey, RowPrefix;
    if pk.Some? {
      RowKeyShape(ns, branch, table, pk.value);
      RowKeyUnderRoot(ns, branch, table, PkTail(pk.value));
    }
  }

  /** A write or tombstone at a branch key changes what the branch shows there, and nowhere else. */
  lemma {:induction false} BranchWriteShows(v: View, ns: Bytes, branch: Bytes, table: Bytes, t: Bytes, raw: Bytes,
                                            u: Bytes)
    requires branch != MAIN_NAME && branch != []
    ensures Shown(Committed(v, [V.Mutation(RowPrefix(ns, branch, table) + t, raw, false)]), ns, branch, table, u) ==
      if u == t then Live(Some(raw)) else Shown(v, ns, branch, table, u)
  {
    hide RowPrefix, DataRoot, RC.IsTombstone;
    var k := RowPrefix(ns, branch, table) + t;
    var m := V.Mutation(k, raw, false);
    forall x ensures V.Overlay([m], x, v(x)) == if x == k then Some(raw) else v(x) {
      assert [] + [m] == [m];
      V.OverlaySnoc([], m, x, v(x));
    }
    PrefixCancel(RowPrefix(ns, branch, table), u, t);
    RowKeyUnderRoot(ns, branch, table, t);
    RowKeyUnderRoot(ns, MAIN_NAME, table, u);
    MainAndBranchDisjoint(ns, branch, k);
  }

  /** Without a primary key, deleting on a branch a row that fell through from main writes main's own key:
      main loses the row. */
  lemma {:induction false} KeylessDeleteReachesMain(v: View, ns: Bytes, branch: Bytes, table: Bytes, tail: Bytes)
    requires Shown(v, ns, MAIN_NAME, table, tail).Some?
    ensures
      var key := BranchRowKey(ns, branch, table, None, RowPrefix(ns, MAIN_NAME, table) + tail);
      Shown(Committed(v, [V.Mutation(key, [RC.ROW_TAG_TOMBSTONE], false)]), ns, MAIN_NAME, table, tail).None?
  {
    hide RowPrefix;
    var k := RowPrefix(ns, MAIN_NAME, table) + tail;
    var m := V.Mutation(k, [RC.ROW_TAG_TOMBSTONE], false);
    assert [] + [m] == [m];
    V.OverlaySnoc([], m, k, v(k));
  }
}
