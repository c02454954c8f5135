/** Foreign-key enforcement inside one transaction (engine/internal/executor/constraints.go and
    deferred.go): child checks, recursive ON DELETE actions, deferred checks, SET CONSTRAINTS and
    COMMIT, all on the transaction's own view of the tables. */
module FkSession {
  import opened Bytes
  import opened ForeignKeys
  import RC = RowCodec

  /** A scanned row: its id and the cells it had at scan time. */
  datatype Row = Row(id: RowId, cells: Cells)

  ghost predicate PendingOk(sch: Schema, p: Pending) {
    exists f :: f in sch.fks && PendingFor(f, p)
  }

  ghost predicate PendingFor(f: FK, p: Pending) {
    && p.constraint == f.name && p.child == f.child && p.parent == f.parent && |p.vals| == |f.refs|
    && (p.ChildCheck? ==> p.refs == f.refs)
  }

  ghost predicate AllPendingOk(sch: Schema, pending: seq<Pending>) {
    forall p :: p in pending ==> PendingOk(sch, p)
  }

  /** Exactly the rows of one table, each once. */
  ghost predicate Lists(db: Db, table: Name, rows: seq<Row>) {
    && (forall i :: 0 <= i < |rows| ==>
        rows[i].id in db && rows[i].id.table == table && rows[i].cells == db[rows[i].id])
    && (forall i, j :: 0 <= i < j < |rows| ==> rows[i].id != rows[j].id)
    && (forall id :: id in db && id.table == table ==> exists i :: 0 <= i < |rows| && rows[i].id == id)
  }

  method ScanTable(db: Db, table: Name) returns (rows: seq<Row>)
    ensures Lists(db, table, rows)
  {
    rows := [];
    var todo := db.Keys;
    while todo != {}
      invariant todo <= db.Keys
      invariant forall i :: 0 <= i < |rows| ==>
        rows[i].id in db && rows[i].id !in todo && rows[i].id.table == table && rows[i].cells == db[rows[i].id]
      invariant forall i, j :: 0 <= i < j < |rows| ==> rows[i].id != rows[j].id
      invariant forall id :: id in db && id !in todo && id.table == table ==>
        exists i :: 0 <= i < |rows| && rows[i].id == id
      decreases |todo|
    {
      var id :| id in todo;
      todo := todo - {id};
      if id.table == table {
        ghost var before := rows;
        rows := rows + [Row(id, db[id])];
        assert rows[|before|].id == id;
        forall x | x in db && x !in todo && x.table == table ensures exists i :: 0 <= i < |rows| && rows[i].id == x {
          if x != id {
            var i :| 0 <= i < |before| && before[i].id == x;
            assert rows[i].id == x;
          }
        }
      }
    }
  }

  /** Whether some parent row has the tuple: a key probe for a lone primary-key column, else a scan. */
  method ParentTupleExists(sch: Schema, db: Db, parent: Name, refs: seq<nat>, vals: Tuple, ghost f: FK)
    returns (ok: bool)
    requires SchemaOk(sch) && DbOk(sch, db) && f in sch.fks && f.parent == parent && f.refs == refs && |vals| == |refs|
    requires parent in sch.tables
    ensures ok <==> ParentExists(db, parent, refs, vals)
  {
    assert FkOk(sch, f);
    if |refs| == 1 && refs[0] == sch.tables[parent].pk {
      ok := RowId(parent, vals[0]) in db;
      KeyProbe(sch, db, f, vals);
      return;
    }
    var rows := ScanTable(db, parent);
    for i := 0 to |rows|
      invariant forall k :: 0 <= k < i ==> !(Fits(rows[k].cells, refs) && Project(rows[k].cells, refs) == Some(vals))
    {
      FitsRefs(sch, db, f, rows[i].id);
      if Project(rows[i].cells, refs) == Some(vals) {
        return true;
      }
    }
    return false;
  }

  lemma {:induction false} KeyProbe(sch: Schema, db: Db, f: FK, vals: Tuple)
    requires SchemaOk(sch) && DbOk(sch, db) && f in sch.fks && |vals| == 1 && |f.refs| == 1
    requires f.parent in sch.tables && f.refs[0] == sch.tables[f.parent].pk
    ensures RowId(f.parent, vals[0]) in db <==> ParentExists(db, f.parent, f.refs, vals)
  {
    var id := RowId(f.parent, vals[0]);
    assert sch.tables[f.parent].pk in f.refs;
    if id in db {
      FitsRefs(sch, db, f, id);
      assert db[id][f.refs[0]] == RC.Text(vals[0]);
      assert Project(db[id], f.refs).value == vals;
    }
    if ParentExists(db, f.parent, f.refs, vals) {
      var r :| r in db && r.table == f.parent && Fits(db[r], f.refs) && Project(db[r], f.refs) == Some(vals);
      assert db[r][f.refs[0]] == RC.Text(vals[0]);
      assert r == id;
    }
  }

  /** This key's children no longer reference the tuple, or the check is pending. */
  ghost predicate KeyHandled(db: Db, pending: seq<Pending>, f: FK, vals: Tuple) {
    forall id :: id in db && id.table == f.child && Matches(db[id], f, vals) ==>
      f.onDelete == Block && Covered(pending, f, vals)
  }

  lemma {:induction false} KeyHandledShrinks(sch: Schema, a: Db, b: Db, p: seq<Pending>, q: seq<Pending>, f: FK,
                                             vals: Tuple)
    requires KeyHandled(a, p, f, vals) && Shrinks(sch, a, b) && p <= q
    ensures KeyHandled(b, q, f, vals)
  {
    hide Matches, NullsOnly;
    forall id | id in b && id.table == f.child && Matches(b[id], f, vals)
      ensures f.onDelete == Block && Covered(q, f, vals)
    {
      MatchesBack(sch, f, a[id], b[id], vals);
      assert forall x :: x in p ==> x in q;
    }
  }

  /** `refTupleFromParent` for the first `n` keys: each one that applies is dealt with. */
  ghost predicate HandledTo(sch: Schema, n: nat, db: Db, pending: seq<Pending>, table: Name, cells: Cells)
    requires n <= |sch.fks|
  {
    forall k, vals ::
      0 <= k < n && sch.fks[k].parent == table && Provides(cells, sch.fks[k], vals) ==>
      KeyHandled(db, pending, sch.fks[k], vals)
  }

  lemma {:induction false} HandledToShrinks(sch: Schema, n: nat, a: Db, b: Db, p: seq<Pending>, q: seq<Pending>,
                                            table: Name, cells: Cells)
    requires n <= |sch.fks| && HandledTo(sch, n, a, p, table, cells) && Shrinks(sch, a, b) && p <= q
    ensures HandledTo(sch, n, b, q, table, cells)
  {
    hide KeyHandled, Shrinks, Project;
    forall k, vals | 0 <= k < n && sch.fks[k].parent == table && Provides(cells, sch.fks[k], vals)
      ensures KeyHandled(b, q, sch.fks[k], vals)
    {
      KeyHandledShrinks(sch, a, b, p, q, sch.fks[k], vals);
    }
  }

  lemma {:induction false} HandledAll(sch: Schema, db: Db, pending: seq<Pending>, table: Name, cells: Cells)
    requires HandledTo(sch, |sch.fks|, db, pending, table, cells)
    ensures Handled(sch, db, pending, table, cells)
  {
    hide Project, Covered;
    forall f, id, vals |
      f in sch.fks && f.parent == table && Fits(cells, f.refs) && Project(cells, f.refs) == Some(vals) &&
      id in db && id.table == f.child && Matches(db[id], f, vals)
      ensures f.onDelete == Block && Covered(pending, f, vals)
    {
      var k :| 0 <= k < |sch.fks| && sch.fks[k] == f;
      assert Provides(cells, sch.fks[k], vals);
    }
  }

  /** What scanned rows `rows[..j]` have been left as. */
  ghost predicate RowsDone(db: Db, pending: seq<Pending>, f: FK, vals: Tuple, rows: seq<Row>, j: nat)
    requires j <= |rows|
  {
    forall k :: 0 <= k < j && rows[k].id in db && Matches(db[rows[k].id], f, vals) ==>
      f.onDelete == Block && Covered(pending, f, vals)
  }

  lemma {:induction false} RowsDoneShrinks(sch: Schema, a: Db, b: Db, p: seq<Pending>, q: seq<Pending>, f: FK,
                                           vals: Tuple, rows: seq<Row>, j: nat)
    requires j <= |rows| && RowsDone(a, p, f, vals, rows, j) && Shrinks(sch, a, b) && p <= q
    requires forall k :: 0 <= k < |rows| ==> rows[k].id.table == f.child
    ensures RowsDone(b, q, f, vals, rows, j)
  {
    hide Matches, NullsOnly;
    forall k | 0 <= k < j && rows[k].id in b && Matches(b[rows[k].id], f, vals)
      ensures f.onDelete == Block && Covered(q, f, vals)
    {
      MatchesBack(sch, f, a[rows[k].id], b[rows[k].id], vals);
      assert forall x :: x in p ==> x in q;
    }
  }

  lemma {:induction false} AllRowsDone(sch: Schema, s: Db, db: Db, pending: seq<Pending>, f: FK, vals: Tuple,
                                       rows: seq<Row>)
    requires Lists(s, f.child, rows) && Shrinks(sch, s, db) && RowsDone(db, pending, f, vals, rows, |rows|)
    ensures KeyHandled(db, pending, f, vals)
  {
    hide Matches, NullsOnly, Covered;
    forall id | id in db && id.table == f.child && Matches(db[id], f, vals)
      ensures f.onDelete == Block && Covered(pending, f, vals)
    {
      var i :| 0 <= i < |rows| && rows[i].id == id;
    }
  }

  // ---- What a statement does to the state of a transaction ----

  /** The tables, the checks put off to COMMIT, and the keys deferred at the moment. */
  datatype State = State(db: Db, pending: seq<Pending>, deferred: set<FK>)

  /** Every immediate key of the row finds its parent. */
  ghost predicate ImmediateOk(sch: Schema, deferred: set<FK>, table: Name, cells: Cells, d: Db) {
    forall f, vals :: ChildOf(sch, table, cells, f, vals) && f !in deferred ==> ParentExists(d, f.parent, f.refs, vals)
  }

  ghost predicate OnlyDeferredReference(sch: Schema, deferred: set<FK>, table: Name, prior: Cells, d: Db) {
    forall f, id, vals :: References(sch, d, table, prior, f, id, vals) ==> f in deferred
  }

  /** No such row, or the key is not NULL and both checks pass. */
  ghost predicate UpdateOk(sch: Schema, deferred: set<FK>, d: Db, id: RowId, next: Cells)
    requires id.table in sch.tables && |next| == sch.tables[id.table].ncols
  {
    id in d ==>
      && UpdateTarget(sch, id, next).Some? && ImmediateOk(sch, deferred, id.table, next, d)
      && (next == d[id] || OnlyDeferredReference(sch, deferred, id.table, d[id], d))
  }

  /** Every tuple the update would take away from under its own row is already pending or deferred. */
  ghost predicate HolesCovered(sch: Schema, s: State, id: RowId, next: Cells) {
    forall f, vals :: Hole(sch, s.db, id, next, f, vals) && f !in s.deferred ==> Covered(s.pending, f, vals)
  }

  /** An INSERT or UPDATE records one check for every deferred key of the new row. */
  ghost predicate ChildAdds(sch: Schema, deferred: set<FK>, table: Name, cells: Cells, c: Pending) {
    exists f, vals :: ChildOf(sch, table, cells, f, vals) && f in deferred && c == ChildRecord(f, vals)
  }

  /** The same of the first `n` keys. */
  ghost predicate ChildAddsTo(sch: Schema, deferred: set<FK>, table: Name, cells: Cells, n: nat, c: Pending) {
    exists k, vals :: 0 <= k < n && k < |sch.fks| && ChildOf(sch, table, cells, sch.fks[k], vals) &&
      sch.fks[k] in deferred && c == ChildRecord(sch.fks[k], vals)
  }

  function ChildRecord(f: FK, vals: Tuple): Pending {
    ChildCheck(f.name, f.child, f.parent, f.refs, vals)
  }

  lemma {:induction false} ChildAddsNone(sch: Schema, deferred: set<FK>, table: Name, cells: Cells)
    ensures forall c :: !ChildAddsTo(sch, deferred, table, cells, 0, c)
  {
  }

  lemma {:induction false} ChildAddsAll(sch: Schema, deferred: set<FK>, table: Name, cells: Cells)
    ensures forall c ::
      ChildAddsTo(sch, deferred, table, cells, |sch.fks|, c) <==> ChildAdds(sch, deferred, table, cells, c)
  {
    hide Matches;
    forall c | ChildAdds(sch, deferred, table, cells, c)
      ensures ChildAddsTo(sch, deferred, table, cells, |sch.fks|, c)
    {
      var f, vals :| ChildOf(sch, table, cells, f, vals) && f in deferred && c == ChildRecord(f, vals);
      var k :| 0 <= k < |sch.fks| && sch.fks[k] == f;
    }
  }

  lemma {:induction false} ChildAddsStep(sch: Schema, deferred: set<FK>, table: Name, cells: Cells, n: nat)
    requires n < |sch.fks|
    ensures var f := sch.fks[n];
      forall c :: ChildAddsTo(sch, deferred, table, cells, n + 1, c) <==>
        || ChildAddsTo(sch, deferred, table, cells, n, c)
        || (f in deferred && f.child == table && Fits(cells, f.locals) && Project(cells, f.locals).Some? &&
            c == ChildRecord(f, Project(cells, f.locals).value))
  {
    hide Project;
    var f := sch.fks[n];
    if Fits(cells, f.locals) && Project(cells, f.locals).Some? && f in deferred && f.child == table {
      assert ChildOf(sch, table, cells, sch.fks[n], Project(cells, f.locals).value);
    }
    forall c | ChildAddsTo(sch, deferred, table, cells, n + 1, c) && !ChildAddsTo(sch, deferred, table, cells, n, c)
      ensures f in deferred && f.child == table && Fits(cells, f.locals) && Project(cells, f.locals).Some?
      ensures c == ChildRecord(f, Project(cells, f.locals).value)
    {
      var k, vals :| 0 <= k < n + 1 && k < |sch.fks| && ChildOf(sch, table, cells, sch.fks[k], vals) &&
        sch.fks[k] in deferred && c == ChildRecord(sch.fks[k], vals);
      assert k == n;
    }
  }

  /** An UPDATE records one for every deferred key through which a row references the old version. */
  ghost predicate ParentAdds(sch: Schema, deferred: set<FK>, d: Db, table: Name, prior: Cells, c: Pending) {
    exists f, id, vals :: References(sch, d, table, prior, f, id, vals) && f in deferred && c == ParentRecord(f, vals)
  }

  ghost predicate ParentAddsTo(sch: Schema, deferred: set<FK>, d: Db, table: Name, prior: Cells, n: nat, c: Pending) {
    exists k, id, vals :: 0 <= k < n && k < |sch.fks| && References(sch, d, table, prior, sch.fks[k], id, vals) &&
      sch.fks[k] in deferred && c == ParentRecord(sch.fks[k], vals)
  }

  function ParentRecord(f: FK, vals: Tuple): Pending {
    ParentCheck(f.name, f.child, f.parent, vals)
  }

  lemma {:induction false} ParentAddsNone(sch: Schema, deferred: set<FK>, d: Db, table: Name, prior: Cells)
    ensures forall c :: !ParentAddsTo(sch, deferred, d, table, prior, 0, c)
  {
  }

  lemma {:induction false} ParentAddsAll(sch: Schema, deferred: set<FK>, d: Db, table: Name, prior: Cells)
    ensures forall c ::
      ParentAddsTo(sch, deferred, d, table, prior, |sch.fks|, c) <==> ParentAdds(sch, deferred, d, table, prior, c)
  {
    hide References;
    forall c | ParentAdds(sch, deferred, d, table, prior, c)
      ensures ParentAddsTo(sch, deferred, d, table, prior, |sch.fks|, c)
    {
      var f, id, vals :| References(sch, d, table, prior, f, id, vals) && f in deferred && c == ParentRecord(f, vals);
      assert f in sch.fks by { ReferencesKey(sch, d, table, prior, f, id, vals); }
      var k :| 0 <= k < |sch.fks| && sch.fks[k] == f;
    }
  }

  lemma {:induction false} ReferencesKey(sch: Schema, d: Db, table: Name, prior: Cells, f: FK, id: RowId, vals: Tuple)
    requires References(sch, d, table, prior, f, id, vals)
    ensures f in sch.fks
  {
  }

  lemma {:induction false} ParentAddsStep(sch: Schema, deferred: set<FK>, d: Db, table: Name, prior: Cells, n: nat)
    requires n < |sch.fks|
    ensures var f := sch.fks[n];
      forall c :: ParentAddsTo(sch, deferred, d, table, prior, n + 1, c) <==>
        || ParentAddsTo(sch, deferred, d, table, prior, n, c)
        || (f.parent == table && Fits(prior, f.refs) && Project(prior, f.refs).Some? &&
            KeyAdds(d, deferred, f, Project(prior, f.refs).value, c))
  {
    hide Project, Matches;
    var f := sch.fks[n];
    forall c | f.parent == table && Fits(prior, f.refs) && Project(prior, f.refs).Some? &&
               KeyAdds(d, deferred, f, Project(prior, f.refs).value, c)
      ensures ParentAddsTo(sch, deferred, d, table, prior, n + 1, c)
    {
      var vals := Project(prior, f.refs).value;
      var id :| id in d && id.table == f.child && Matches(d[id], f, vals);
      assert References(sch, d, table, prior, sch.fks[n], id, vals);
    }
    forall c | ParentAddsTo(sch, deferred, d, table, prior, n + 1, c) &&
               !ParentAddsTo(sch, deferred, d, table, prior, n, c)
      ensures f.parent == table && Fits(prior, f.refs) && Project(prior, f.refs).Some?
      ensures KeyAdds(d, deferred, f, Project(prior, f.refs).value, c)
    {
      var k, id, vals :| 0 <= k < n + 1 && k < |sch.fks| && References(sch, d, table, prior, sch.fks[k], id, vals) &&
        sch.fks[k] in deferred && c == ParentRecord(sch.fks[k], vals);
      assert k == n;
    }
  }

  /** What one key adds to the list for one tuple. */
  ghost predicate KeyAdds(d: Db, deferred: set<FK>, f: FK, vals: Tuple, c: Pending) {
    && f in deferred && c == ParentRecord(f, vals)
    && exists id :: id in d && id.table == f.child && Matches(d[id], f, vals)
  }

  ghost predicate AnyMatch(rows: seq<Row>, n: nat, f: FK, vals: Tuple) {
    exists k :: 0 <= k < n && k < |rows| && Matches(rows[k].cells, f, vals)
  }

  lemma {:induction false} AnyMatchAll(d: Db, rows: seq<Row>, f: FK, vals: Tuple)
    requires Lists(d, f.child, rows)
    ensures AnyMatch(rows, |rows|, f, vals) <==>
      exists id :: id in d && id.table == f.child && Matches(d[id], f, vals)
  {
    hide Matches;
    if AnyMatch(rows, |rows|, f, vals) {
      var k :| 0 <= k < |rows| && Matches(rows[k].cells, f, vals);
      assert rows[k].id in d;
    }
    if id :| id in d && id.table == f.child && Matches(d[id], f, vals) {
      var k :| 0 <= k < |rows| && rows[k].id == id;
      assert rows[k].cells == d[id];
    }
  }

  ghost predicate UpdateAdds(sch: Schema, s: State, id: RowId, next: Cells, c: Pending) {
    && id in s.db
    && (|| ChildAdds(sch, s.deferred, id.table, next, c)
        || (next != s.db[id] && ParentAdds(sch, s.deferred, s.db, id.table, s.db[id], c)))
  }

  /** A DELETE records checks of deferred keys that would have blocked it, on tuples of rows it removed that some
      row referenced. */
  ghost predicate DeleteAdds(sch: Schema, deferred: set<FK>, a: Db, b: Db, c: Pending) {
    exists f, r, vals :: Recorded(sch, deferred, a, f, r, vals, c) && GoneRow(a, b, f, vals)
  }

  ghost predicate Recorded(sch: Schema, deferred: set<FK>, a: Db, f: FK, r: RowId, vals: Tuple, c: Pending) {
    && f in sch.fks && f in deferred && f.onDelete == Block && r in a && r.table == f.child && Matches(a[r], f, vals)
    && c == ParentRecord(f, vals)
  }

  ghost predicate SelectedPass(sch: Schema, db: Db, pending: seq<Pending>, all: bool, names: set<Name>) {
    forall i :: 0 <= i < |pending| && Selected(pending[i], all, names) ==> Passes(sch, db, pending[i])
  }

  ghost predicate AllPass(sch: Schema, s: State) {
    forall p :: p in s.pending ==> Passes(sch, s.db, p)
  }

  /** SET CONSTRAINTS as a change of the deferred keys. */
  ghost function ModeAfter(sch: Schema, deferred: set<FK>, all: bool, names: seq<Name>, defer: bool): set<FK> {
    set f | f in sch.fks && f.deferrable && (if all || f.name in names then defer else f in deferred)
  }

  /** The statement is refused. */
  ghost predicate Fails(sch: Schema, inBlock: bool, op: Op, s: State)
    requires OpOk(sch, op)
  {
    match op
    case Insert(table, rowNumber, cells) =>
      var key := RowKeyOf(sch, table, rowNumber, cells);
      !ImmediateOk(sch, s.deferred, table, cells, s.db) || key.None? || RowId(table, key.value) in s.db
    case Update(id, next) => !UpdateOk(sch, s.deferred, s.db, id, next)
    case Delete(table, where) =>
      exists r :: r in Targets(s.db, table, where) && Refused(sch, s.db, table, s.db[r], 0, s.deferred)
    case SetConstraints(all, names, deferred) =>
      inBlock && !deferred && !SelectedPass(sch, s.db, s.pending, all, set n | n in names)
  }

  /** The statement succeeds and takes state `a` to `b`. */
  ghost predicate Does(sch: Schema, inBlock: bool, op: Op, a: State, b: State)
    requires OpOk(sch, op)
  {
    match op
    case Insert(table, rowNumber, cells) =>
      && !Fails(sch, inBlock, op, a) && a.pending <= b.pending && b.deferred == a.deferred
      && b.db == a.db[RowId(table, RowKeyOf(sch, table, rowNumber, cells).value) := cells]
      && (forall c :: c in b.pending <==> c in a.pending || ChildAdds(sch, a.deferred, table, cells, c))
    case Update(id, next) =>
      && !Fails(sch, inBlock, op, a) && a.pending <= b.pending && b.deferred == a.deferred
      && b.db == (if id in a.db then a.db[UpdateTarget(sch, id, next).value := next] else a.db)
      && (forall c :: c in b.pending <==> c in a.pending || UpdateAdds(sch, a, id, next, c))
    case Delete(table, where) =>
      && Deleted(sch, a.db, b.db, b.pending, Targets(a.db, table, where))
      && a.pending <= b.pending && b.deferred == a.deferred
      && (forall c :: c in b.pending ==> c in a.pending || DeleteAdds(sch, a.deferred, a.db, b.db, c))
    case SetConstraints(all, names, deferred) =>
      && !Fails(sch, inBlock, op, a) && b.db == a.db
      && b.deferred == (if inBlock then ModeAfter(sch, a.deferred, all, names, deferred) else a.deferred)
      && b.pending == if inBlock && !deferred then Kept(a.pending, all, set n | n in names) else a.pending
  }

  /** The states after 0, 1, 2, ... statements. */
  ghost predicate IsRun(sch: Schema, inBlock: bool, ops: seq<Op>, trace: seq<State>)
    requires forall i :: 0 <= i < |ops| ==> OpOk(sch, ops[i])
  {
    && 1 <= |trace| <= |ops| + 1
    && forall i {:trigger ops[i]} :: 0 <= i < |trace| - 1 ==> Does(sch, inBlock, ops[i], trace[i], trace[i + 1])
  }

  /** An UPDATE that gives a row the key of another: the other row is overwritten. */
  ghost predicate Overwrites(sch: Schema, op: Op, s: State)
    requires OpOk(sch, op)
  {
    && op.Update? && op.id in s.db && UpdateTarget(sch, op.id, op.next).Some?
    && UpdateTarget(sch, op.id, op.next) != Some(op.id) && UpdateTarget(sch, op.id, op.next).value in s.db
  }

  /** The statement is not an UPDATE that takes away the tuple its own new row references, or overwrites
      another row. */
  ghost predicate NoHole(sch: Schema, op: Op, s: State)
    requires OpOk(sch, op)
  {
    && !Overwrites(sch, op, s)
    && (op.Update? && UpdateTarget(sch, op.id, op.next) == Some(op.id) ==> HolesCovered(sch, s, op.id, op.next))
  }

  ghost predicate NoHoles(sch: Schema, ops: seq<Op>, trace: seq<State>)
    requires forall i :: 0 <= i < |ops| ==> OpOk(sch, ops[i])
  {
    forall i :: 0 <= i < |trace| - 1 && i < |ops| ==> NoHole(sch, ops[i], trace[i])
  }

  lemma {:induction false} NoHolesSnoc(sch: Schema, ops: seq<Op>, trace: seq<State>, s: State)
    requires (forall i :: 0 <= i < |ops| ==> OpOk(sch, ops[i])) && 1 <= |trace| <= |ops|
    ensures NoHoles(sch, ops, trace + [s]) ==>
      NoHoles(sch, ops, trace) && NoHole(sch, ops[|trace| - 1], trace[|trace| - 1])
  {
    hide NoHole, OpOk;
    var all := trace + [s];
    forall i | 0 <= i < |trace|
      ensures all[i] == trace[i] && (NoHoles(sch, ops, all) ==> NoHole(sch, ops[i], all[i]))
    {}
  }

  /** An UPDATE that overwrites no other row and leaves alone every column a self-referencing key of its table
      refers to. */
  ghost predicate UpdateKeeps(sch: Schema, op: Op, s: State)
    requires OpOk(sch, op)
  {
    && !Overwrites(sch, op, s)
    && (op.Update? && op.id in s.db ==> ReferredKept(sch, op, s))
  }

  ghost predicate ReferredKept(sch: Schema, op: Op, s: State)
    requires op.Update? && op.id in s.db
  {
    forall f :: f in sch.fks && f.child == op.id.table && f.parent == op.id.table ==>
      SameAt(s.db[op.id], op.next, f.refs)
  }

  ghost predicate SameAt(a: Cells, b: Cells, cols: seq<nat>) {
    |a| == |b| && forall i :: 0 <= i < |cols| && cols[i] < |a| ==> a[cols[i]] == b[cols[i]]
  }

  ghost predicate NoneOverwrites(sch: Schema, ops: seq<Op>, trace: seq<State>)
    requires forall i :: 0 <= i < |ops| ==> OpOk(sch, ops[i])
  {
    forall i :: 0 <= i < |trace| - 1 && i < |ops| ==> !Overwrites(sch, ops[i], trace[i])
  }

  ghost predicate KeepsReferred(sch: Schema, ops: seq<Op>, trace: seq<State>)
    requires forall i :: 0 <= i < |ops| ==> OpOk(sch, ops[i])
  {
    forall i :: 0 <= i < |trace| - 1 && i < |ops| ==> UpdateKeeps(sch, ops[i], trace[i])
  }

  lemma {:induction false} ProjectSame(a: Cells, b: Cells, cols: seq<nat>)
    requires SameAt(a, b, cols) && Fits(a, cols)
    ensures Fits(b, cols) && Project(a, cols) == Project(b, cols)
    decreases |cols|
  {
    if cols != [] {
      forall i | 0 <= i < |cols[1..]| ensures cols[1..][i] == cols[i + 1] {}
      ProjectSame(a, b, cols[1..]);
    }
  }

  /** An UPDATE opens a hole only by overwriting a row or by changing a column that a key of its table to itself
      refers to, so transactions that never do have none; nor do transactions that overwrite nothing in schemas
      without such keys. */
  lemma {:induction false} KeptColumns(sch: Schema, ops: seq<Op>, trace: seq<State>)
    requires forall i :: 0 <= i < |ops| ==> OpOk(sch, ops[i])
    ensures KeepsReferred(sch, ops, trace) ==> NoHoles(sch, ops, trace)
    ensures (forall f :: f in sch.fks ==> f.child != f.parent) && NoneOverwrites(sch, ops, trace) ==>
      KeepsReferred(sch, ops, trace)
  {
    hide Fits, Project, Matches, Covered, SameAt, OpOk, Overwrites;
    if KeepsReferred(sch, ops, trace) {
      forall i | 0 <= i < |trace| - 1 && i < |ops| ensures NoHole(sch, ops[i], trace[i]) {
        KeptColumnsNoHole(sch, ops[i], trace[i]);
      }
    }
  }

  lemma {:induction false} KeptColumnsNoHole(sch: Schema, op: Op, s: State)
    requires OpOk(sch, op) && UpdateKeeps(sch, op, s)
    ensures NoHole(sch, op, s)
  {
    hide Project, Matches, Covered, SameAt, OpOk, Overwrites;
    if op.Update? {
      forall f, vals | f in sch.fks && op.id in s.db && f.child == op.id.table && f.parent == op.id.table
        ensures Provides(s.db[op.id], f, vals) ==> Provides(op.next, f, vals)
      {
        if Provides(s.db[op.id], f, vals) { ProjectSame(s.db[op.id], op.next, f.refs); }
      }
    }
  }

  class Session {
    const sch: Schema
    /** False in autocommit, where nothing is ever deferred. */
    const inBlock: bool
    /** The tables as the transaction found them. */
    const begin: Db
    var db: Db
    var pending: seq<Pending>
    var overrides: map<Name, bool>
    var allOverride: bool
    var allDeferred: bool

    /** BEGIN on tables without orphans. */
    constructor (sch: Schema, inBlock: bool, db: Db)
      requires SchemaOk(sch) && DbOk(sch, db)
      ensures Valid() && this.sch == sch && this.inBlock == inBlock && begin == db && this.db == db && pending == []
      ensures NoOrphans(sch, db) ==> Safe()
      ensures forall f :: IsDeferred(f) <==> f.deferrable && inBlock && f.initiallyDeferred
    {
      this.sch, this.inBlock, this.begin, this.db, this.pending := sch, inBlock, db, db, [];
      this.overrides, this.allOverride, this.allDeferred := map[], false, false;
    }

    ghost predicate Valid()
      reads this
    {
      SchemaOk(sch) && DbOk(sch, db) && AllPendingOk(sch, pending)
    }

    ghost predicate Safe()
      reads this
    {
      OrphansCovered(sch, db, pending)
    }

    /** `effectiveDeferral`: SET CONSTRAINTS by name, else ALL, else INITIALLY DEFERRED. */
    predicate IsDeferred(f: FK)
      reads `overrides, `allOverride, `allDeferred
    {
      f.deferrable && inBlock &&
      if f.name in overrides then overrides[f.name] else if allOverride then allDeferred else f.initiallyDeferred
    }

    ghost function DeferredKeys(): set<FK>
      reads `overrides, `allOverride, `allDeferred
    {
      set f | f in sch.fks && IsDeferred(f)
    }

    ghost function Now(): State
      reads this
    {
      State(db, pending, DeferredKeys())
    }

    /** ON DELETE actions of every key referencing one deleted row (`applyFKDeleteActions`). */
    method ApplyDelete(table: Name, cells: Cells, depth: nat) returns (ok: bool)
      requires Valid() && table in sch.tables && |cells| == sch.tables[table].ncols && depth <= MAX_CASCADE_DEPTH + 1
      modifies this`db, this`pending
      ensures Valid()
      ensures ok ==> Effect(sch, old(db), db, pending, table, cells) && Handled(sch, db, pending, table, cells)
      ensures ok ==> old(pending) <= pending
      ensures ok ==> AllAdded(sch, DeferredKeys(), old(db), db, table, cells, old(pending), pending)
      ensures !ok ==> Refused(sch, old(db), table, cells, depth, DeferredKeys())
      decreases MAX_CASCADE_DEPTH + 1 - depth, 1
    {
      if depth > MAX_CASCADE_DEPTH {
        return false;
      }
      hide Effect, HandledTo, SchemaOk, DbOk, Refused, AllAdded;
      ghost var a, p := db, pending;
      NothingAdded(sch, DeferredKeys(), db, table, cells, pending);
      EffectIdle(sch, db, pending, table, cells);
      assert HandledTo(sch, 0, db, pending, table, cells) by { HandledNone(sch, db, pending, table, cells); }
      for i := 0 to |sch.fks|
        invariant Valid() && p <= pending
        invariant Effect(sch, a, db, pending, table, cells)
        invariant HandledTo(sch, i, db, pending, table, cells)
        invariant AllAdded(sch, DeferredKeys(), a, db, table, cells, p, pending)
      {
        var f := sch.fks[i];
        if f.parent == table {
          FkFits(sch, f, cells);
          var vals := Project(cells, f.refs);
          if vals.Some? {
            ghost var b, q := db, pending;
            var done := ApplyKey(table, cells, f, vals.value, depth, a, p);
            if !done {
              return false;
            }
            HandledToShrinks(sch, i, b, db, q, pending, table, cells);
          }
        }
        HandledOneMore(sch, i, db, pending, table, cells);
      }
      HandledAll(sch, db, pending, table, cells);
      return true;
    }

    /** One key: what happens to each scanned child row that references the tuple. */
    method ApplyKey(table: Name, cells: Cells, f: FK, vals: Tuple, depth: nat, ghost a: Db, ghost before: seq<Pending>)
      returns (ok: bool)
      requires Valid() && f in sch.fks && f.parent == table && table in sch.tables && |cells| == sch.tables[table].ncols
      requires Fits(cells, f.refs) && Project(cells, f.refs) == Some(vals) && depth <= MAX_CASCADE_DEPTH
      requires DbOk(sch, a) && Effect(sch, a, db, pending, table, cells)
      requires AllAdded(sch, DeferredKeys(), a, db, table, cells, before, pending)
      modifies this`db, this`pending
      ensures Valid()
      ensures ok ==> Effect(sch, a, db, pending, table, cells) && KeyHandled(db, pending, f, vals)
      ensures ok ==> old(pending) <= pending && Shrinks(sch, old(db), db)
      ensures ok ==> AllAdded(sch, DeferredKeys(), a, db, table, cells, before, pending)
      ensures !ok ==> Refused(sch, a, table, cells, depth, DeferredKeys())
      decreases MAX_CASCADE_DEPTH + 1 - depth, 0
    {
      hide Effect, Lists, RowsDone, Shrinks, SchemaOk, DbOk, AllPendingOk, Handled, KeyHandled, Matches, Project,
        Refused, AllAdded;
      ghost var p := pending;
      var rows := ScanTable(db, f.child);
      ghost var s := db;
      KeyStart(sch, a, db, pending, table, cells, f, vals, rows);
      for j := 0 to |rows|
        invariant Valid() && p <= pending
        invariant KeyInv(sch, a, s, db, pending, table, cells, f, vals, rows, j)
        invariant AllAdded(sch, DeferredKeys(), a, db, table, cells, before, pending)
      {
        var r := rows[j];
        ghost var b, q := db, pending;
        if !Matches(r.cells, f, vals) {
          KeySkip(sch, a, s, db, pending, table, cells, f, vals, rows, j);
          continue;
        }
        match f.onDelete {
          case Cascade =>
            ChildWidth(sch, s, f, rows, j);
            var done := ApplyDelete(f.child, r.cells, depth + 1);
            if !done {
              KeyRefused(sch, a, s, b, q, table, cells, f, vals, rows, j, depth, DeferredKeys());
              return false;
            }
            ghost var c := db;
            db := db - {r.id};
            KeyCascade(sch, a, s, b, c, q, pending, table, cells, f, vals, rows, j);
            KeyCascadeAdds(sch, DeferredKeys(), a, s, b, c, before, q, pending, table, cells, f, vals, rows, j);
          case SetNull =>
            db := db[r.id := Nulled(r.cells, f.locals)];
            KeySetNull(sch, a, s, b, pending, table, cells, f, vals, rows, j);
            AddedLater(sch, DeferredKeys(), a, b, db, table, cells, before, pending);
          case Block =>
            if !IsDeferred(f) {
              KeyBlocked(sch, a, s, db, pending, table, cells, f, vals, rows, j, depth, DeferredKeys());
              return false;
            }
            pending := pending + [ParentCheck(f.name, f.child, table, vals)];
            KeyDefer(sch, a, s, db, q, table, cells, f, vals, rows, j);
            KeyDeferAdds(sch, DeferredKeys(), a, s, db, before, q, table, cells, f, vals, rows, j);
        }
        KeyValid(sch, a, db, pending, table, cells);
        assert KeyInv(sch, a, s, db, pending, table, cells, f, vals, rows, j + 1);
      }
      KeyEnd(sch, a, s, db, pending, table, cells, f, vals, rows);
      return true;
    }

    /** DELETE: the rows of `table` that satisfy `where`, as scanned, one after the other. */
    method Delete(table: Name, where: Cells -> bool) returns (ok: bool)
      requires Valid()
      modifies `db, `pending
      ensures Valid()
      ensures ok ==> Deleted(sch, old(db), db, pending, Targets(old(db), table, where)) && old(pending) <= pending
      ensures ok ==> StatementAdded(sch, DeferredKeys(), old(db), db, old(pending), pending)
      ensures ok && old(Safe()) ==> Safe()
      ensures !ok ==>
        exists r :: r in Targets(old(db), table, where) && Refused(sch, old(db), table, old(db)[r], 0, DeferredKeys())
    {
      hide Deleted, SchemaOk, DbOk, AllPendingOk, Effect, Handled, Lists, OrphansCovered, Refused, StatementAdded,
        AllAdded;
      var rows := ScanTable(db, table);
      ghost var a, p := db, pending;
      DeletedIdle(sch, db, pending);
      assert TargetsTo(rows, where, 0) == {};
      assert StatementAdded(sch, DeferredKeys(), a, db, p, pending) by { NoneAdded(sch, DeferredKeys(), db, pending); }
      for i := 0 to |rows|
        invariant Valid() && p <= pending
        invariant Deleted(sch, a, db, pending, TargetsTo(rows, where, i))
        invariant StatementAdded(sch, DeferredKeys(), a, db, p, pending)
      {
        var r := rows[i];
        TargetsStep(rows, where, i);
        if where(r.cells) {
          ghost var b, q := db, pending;
          RowWidth(sch, a, table, rows, i);
          var done := ApplyDelete(table, r.cells, 0);
          if !done {
            DeleteRefused(sch, a, b, q, table, rows, where, i, DeferredKeys());
            return false;
          }
          ghost var c := db;
          db := db - {r.id};
          DeleteOneAdds(sch, DeferredKeys(), a, b, c, p, q, pending, table, rows, where, i);
          DeleteOne(sch, a, b, c, q, pending, table, rows, where, i);
        }
      }
      TargetsAll(a, table, rows, where);
      DeletedCoverage(sch, a, db, p, pending, TargetsTo(rows, where, |rows|));
      return true;
    }

    /** `enforceFKChild`: each immediate key of the row finds its parent; deferred ones are recorded. */
    method EnforceChild(table: Name, cells: Cells) returns (ok: bool)
      requires Valid() && table in sch.tables && |cells| == sch.tables[table].ncols
      modifies `pending
      ensures Valid() && old(pending) <= pending
      ensures ok <==> ImmediateOk(sch, DeferredKeys(), table, cells, db)
      ensures ok ==> forall f, vals :: ChildOf(sch, table, cells, f, vals) && IsDeferred(f) ==>
        Covered(pending, f, vals)
      ensures OnlyDeferredAdded(old(pending))
      ensures ok ==> forall c :: c in pending <==> c in old(pending) || ChildAdds(sch, DeferredKeys(), table, cells, c)
    {
      hide SchemaOk, DbOk, Project, Matches, ParentExists, Covered, ChildAddsTo;
      ChildAddsNone(sch, DeferredKeys(), table, cells);
      for i := 0 to |sch.fks|
        invariant Valid() && old(pending) <= pending && OnlyDeferredAdded(old(pending))
        invariant forall k, vals :: 0 <= k < i && ChildOf(sch, table, cells, sch.fks[k], vals) ==>
          IsDeferred(sch.fks[k]) || ParentExists(db, sch.fks[k].parent, sch.fks[k].refs, vals)
        invariant forall k, vals :: 0 <= k < i && ChildOf(sch, table, cells, sch.fks[k], vals) ==>
          !IsDeferred(sch.fks[k]) || Covered(pending, sch.fks[k], vals)
        invariant forall c :: c in pending <==>
          c in old(pending) || ChildAddsTo(sch, DeferredKeys(), table, cells, i, c)
      {
        var f := sch.fks[i];
        ChildAddsStep(sch, DeferredKeys(), table, cells, i);
        if f.child != table {
          continue;
        }
        ChildTuple(sch, table, cells, f);
        var vals := Project(cells, f.locals);
        if vals.None? {
          continue;
        }
        if IsDeferred(f) {
          var c := ChildRecord(f, vals.value);
          Record(sch, f, c, pending);
          pending := pending + [c];
          continue;
        }
        var found := ParentTupleExists(sch, db, f.parent, f.refs, vals.value, f);
        if !found {
          return false;
        }
      }
      ChildAddsAll(sch, DeferredKeys(), table, cells);
      return true;
    }

    /** INSERT: child checks, then the duplicate-key probe, then the write. */
    method Insert(table: Name, rowNumber: Bytes, cells: Cells) returns (ok: bool)
      requires Valid() && table in sch.tables && |cells| == sch.tables[table].ncols
      modifies `db, `pending
      ensures Valid() && old(pending) <= pending
      ensures ok ==>
        var key := RowKeyOf(sch, table, rowNumber, cells);
        key.Some? && db == old(db)[RowId(table, key.value) := cells]
      ensures !ok ==> db == old(db)
      ensures ok <==>
        && ImmediateOk(sch, DeferredKeys(), table, cells, old(db)) && RowKeyOf(sch, table, rowNumber, cells).Some?
        && RowId(table, RowKeyOf(sch, table, rowNumber, cells).value) !in old(db)
      ensures ok && old(Safe()) ==> Safe()
      ensures ok ==> forall c :: c in pending <==> c in old(pending) || ChildAdds(sch, DeferredKeys(), table, cells, c)
    {
      hide SchemaOk, DbOk, AllPendingOk, ParentExists, Covered, OrphansCovered, ChildAdds;
      ok := EnforceChild(table, cells);
      if !ok {
        return;
      }
      var key := RowKeyOf(sch, table, rowNumber, cells);
      if key.None? || RowId(table, key.value) in db {
        return false;
      }
      InsertKeepsCoverage(sch, db, old(pending), pending, RowId(table, key.value), cells);
      InsertDbOk(sch, db, RowId(table, key.value), cells);
      db := db[RowId(table, key.value) := cells];
    }

    /** Keys referencing an updated row: a child that references its old tuple blocks or is recorded. */
    method EnforceParentUpdate(table: Name, prior: Cells) returns (ok: bool)
      requires Valid() && table in sch.tables && |prior| == sch.tables[table].ncols
      modifies `pending
      ensures Valid() && old(pending) <= pending && OnlyDeferredAdded(old(pending))
      ensures ok <==> OnlyDeferredReference(sch, DeferredKeys(), table, prior, db)
      ensures ok ==> forall f, id, vals :: References(sch, db, table, prior, f, id, vals) ==> Covered(pending, f, vals)
      ensures ok ==>
        forall c :: c in pending <==> c in old(pending) || ParentAdds(sch, DeferredKeys(), db, table, prior, c)
    {
      hide SchemaOk, DbOk, Project, Matches, Covered, ParentAddsTo, KeyAdds;
      ParentAddsNone(sch, DeferredKeys(), db, table, prior);
      for i := 0 to |sch.fks|
        invariant Valid() && old(pending) <= pending && OnlyDeferredAdded(old(pending))
        invariant forall k, id, vals :: 0 <= k < i && References(sch, db, table, prior, sch.fks[k], id, vals) ==>
          IsDeferred(sch.fks[k]) && Covered(pending, sch.fks[k], vals)
        invariant forall c :: c in pending <==>
          c in old(pending) || ParentAddsTo(sch, DeferredKeys(), db, table, prior, i, c)
      {
        var f := sch.fks[i];
        ParentAddsStep(sch, DeferredKeys(), db, table, prior, i);
        if f.parent != table {
          continue;
        }
        FkFits(sch, f, prior);
        var vals := Project(prior, f.refs);
        if vals.None? {
          continue;
        }
        var done := BlockChildren(f, vals.value);
        if !done {
          ghost var id :| id in db && id.table == f.child && Matches(db[id], f, vals.value) && !IsDeferred(f);
          assert References(sch, db, table, prior, f, id, vals.value);
          return false;
        }
      }
      ParentAddsAll(sch, DeferredKeys(), db, table, prior);
      return true;
    }

    method BlockChildren(f: FK, vals: Tuple) returns (ok: bool)
      requires Valid() && f in sch.fks && |vals| == |f.refs|
      modifies `pending
      ensures Valid() && old(pending) <= pending
      ensures forall g, v :: g in sch.fks && Covered(old(pending), g, v) ==> Covered(pending, g, v)
      ensures forall g, v :: g in sch.fks && (g != f || !IsDeferred(f)) && Covered(pending, g, v) ==>
        Covered(old(pending), g, v)
      ensures ok <==> forall id :: id in db && id.table == f.child && Matches(db[id], f, vals) ==> IsDeferred(f)
      ensures ok ==> forall id :: id in db && id.table == f.child && Matches(db[id], f, vals) ==>
        Covered(pending, f, vals)
      ensures ok ==> forall c :: c in pending <==> c in old(pending) || KeyAdds(db, DeferredKeys(), f, vals, c)
    {
      hide SchemaOk, DbOk, AllPendingOk, Matches, Covered;
      var rows := ScanTable(db, f.child);
      for j := 0 to |rows|
        invariant Valid() && old(pending) <= pending
        invariant forall g, v :: g in sch.fks && Covered(old(pending), g, v) ==> Covered(pending, g, v)
        invariant forall g, v :: g in sch.fks && (g != f || !IsDeferred(f)) && Covered(pending, g, v) ==>
          Covered(old(pending), g, v)
        invariant forall k :: 0 <= k < j && Matches(rows[k].cells, f, vals) ==>
          IsDeferred(f) && Covered(pending, f, vals)
        invariant forall c :: c in pending <==>
          c in old(pending) || (IsDeferred(f) && c == ParentRecord(f, vals) && AnyMatch(rows, j, f, vals))
      {
        if Matches(rows[j].cells, f, vals) {
          if !IsDeferred(f) {
            return false;
          }
          var c := ParentRecord(f, vals);
          Record(sch, f, c, pending);
          pending := pending + [c];
        }
      }
      AnyMatchAll(db, rows, f, vals);
      return true;
    }

    /** UPDATE of one row. The new version is written under its own primary key: with a new key the old
        version stays, and a row that had that key is overwritten. */
    method Update(id: RowId, next: Cells) returns (ok: bool)
      requires Valid() && id.table in sch.tables && |next| == sch.tables[id.table].ncols
      modifies `db, `pending
      ensures Valid() && old(pending) <= pending
      ensures ok <==> UpdateOk(sch, DeferredKeys(), old(db), id, next)
      ensures db == if ok && id in old(db) then old(db)[UpdateTarget(sch, id, next).value := next] else old(db)
      ensures id !in old(db) ==> pending == old(pending)
      ensures ok && id in old(db) && old(Safe()) ==>
        var target := UpdateTarget(sch, id, next).value;
        if target == id then Safe() <==> HolesCovered(sch, old(Now()), id, next)
        else Safe() <==> target in old(db) ==> LostCovered(sch, old(db), pending, target, next)
      ensures ok ==> forall c :: c in pending <==> c in old(pending) || UpdateAdds(sch, old(Now()), id, next, c)
    {
      hide SchemaOk, DbOk, AllPendingOk, ParentExists, Covered, OrphansCovered, Matches, Project, ChildAdds, ParentAdds;
      if id !in db {
        return true;
      }
      var target := UpdateTarget(sch, id, next);
      if target.None? {
        return false;
      }
      ok := EnforceChild(id.table, next);
      if !ok {
        return;
      }
      ghost var q := pending;
      if next != db[id] {
        RowShape(sch, db, id);
        ok := EnforceParentUpdate(id.table, db[id]);
        if !ok {
          return;
        }
      }
      CoveredGrows(sch, q, pending);
      CoveredGrows(sch, old(pending), q);
      if target.value == id {
        assert HolesCovered(sch, old(Now()), id, next) <==>
               forall f, vals :: Hole(sch, db, id, next, f, vals) ==> Covered(pending, f, vals) by {
          HolesOnly(sch, db, old(pending), pending, id, next, DeferredKeys());
        }
        UpdateCoverage(sch, db, old(pending), pending, id, next);
      } else {
        RekeyCoverage(sch, db, old(pending), pending, target.value, next);
      }
      InsertDbOk(sch, db, target.value, next);
      db := db[target.value := next];
    }

    /** `runPendingChecks`: every check, or those of the named constraints; stops at the first violation. */
    method RunPending(all: bool, names: set<Name>) returns (ok: bool)
      requires Valid()
      modifies `pending
      ensures Valid()
      ensures ok <==> SelectedPass(sch, db, old(pending), all, names)
      ensures pending == Left(sch, db, old(pending), all, names)
      ensures ok ==> pending == Kept(old(pending), all, names)
      ensures ok <==> forall p :: p in old(pending) && (all || p.constraint in names) ==> Passes(sch, db, p)
      ensures ok ==> OthersRemain(old(pending), pending, all, names)
      ensures !ok ==> Stops(sch, db, old(pending), pending, all, names)
      ensures ok && old(Safe()) ==> Safe()
    {
      hide SchemaOk, DbOk, Passes, OrphansCovered, PendingOk, Left, Kept, Selected, OthersRemain, Stops;
      SelectedPassMeans(sch, db, pending, all, names);
      LeftMeans(sch, db, pending, all, names);
      KeptMeans(pending, all, names);
      var remaining := [];
      LeftStart(sch, db, pending, all, names);
      for i := 0 to |pending|
        invariant pending == old(pending) && remaining == Kept(pending[..i], all, names)
        invariant forall k :: 0 <= k < i && Selected(pending[k], all, names) ==> Passes(sch, db, pending[k])
        invariant Left(sch, db, pending, all, names) == remaining + Left(sch, db, pending[i..], all, names)
      {
        var p := pending[i];
        LeftStep(sch, db, pending, all, names, i, remaining);
        if !Selected(p, all, names) {
          remaining := remaining + [p];
          continue;
        }
        ok := RunOnePending(sch, db, p);
        if !ok {
          KeptWithin(pending[..i], all, names);
          pending := remaining + [p];
          return;
        }
      }
      LeftEnd(sch, db, pending, all, names, remaining);
      KeptWithin(pending, all, names);
      if OrphansCovered(sch, db, pending) {
        SettledCoverage(sch, db, pending, all, names);
      }
      pending := remaining;
      return true;
    }

    method SetMode(all: bool, names: seq<Name>, deferred: bool)
      modifies `overrides, `allOverride, `allDeferred
      ensures inBlock ==> forall f: FK :: f.deferrable ==>
        (IsDeferred(f) <==> if all || f.name in names then deferred else old(IsDeferred(f)))
    {
      if all {
        allOverride, allDeferred, overrides := true, deferred, map[];
        return;
      }
      for i := 0 to |names|
        invariant allOverride == old(allOverride) && allDeferred == old(allDeferred)
        invariant forall n :: n in overrides <==> n in old(overrides) || n in names[..i]
        invariant forall n :: n in overrides ==> overrides[n] == if n in names[..i] then deferred else old(overrides)[n]
      {
        overrides := overrides[names[i] := deferred];
      }
      assert names[..|names|] == names;
    }

    /** SET CONSTRAINTS { ALL | names } { DEFERRED | IMMEDIATE }. */
    method SetConstraints(all: bool, names: seq<Name>, deferred: bool) returns (ok: bool)
      requires Valid()
      modifies `pending, `overrides, `allOverride, `allDeferred
      ensures Valid() && (ok && old(Safe()) ==> Safe())
      ensures !inBlock ==> ok && unchanged(this)
      ensures inBlock && deferred ==> ok && pending == old(pending)
      ensures inBlock ==> forall f: FK :: f.deferrable ==>
        (IsDeferred(f) <==> if all || f.name in names then deferred else old(IsDeferred(f)))
      ensures inBlock && !deferred && ok ==> pending == Kept(old(pending), all, set n | n in names)
      ensures ok <==> !inBlock || deferred || SelectedPass(sch, old(db), old(pending), all, set n | n in names)
      ensures inBlock && !deferred ==>
        (ok <==> forall p :: p in old(pending) && (all || p.constraint in names) ==> Passes(sch, db, p))
      ensures inBlock && !deferred && ok ==> OthersRemain(old(pending), pending, all, set n | n in names)
      ensures inBlock && !deferred && !ok ==>
        Stops(sch, db, old(pending), pending, all, set n | n in names)
    {
      hide SchemaOk, DbOk, Passes, OrphansCovered, PendingOk, OthersRemain, Stops;
      if !inBlock {
        return true;
      }
      SetMode(all, names, deferred);
      if deferred {
        return true;
      }
      ok := RunPending(all, set n | n in names);
    }

    /** COMMIT: every pending check must pass, else the transaction is rolled back. */
    method Commit() returns (ok: bool)
      requires Valid() && DbOk(sch, begin)
      modifies `db, `pending
      ensures Valid() && pending == []
      ensures ok <==> forall p :: p in old(pending) ==> Passes(sch, old(db), p)
      ensures ok && old(Safe()) ==> NoOrphans(sch, db)
      ensures db == if ok then old(db) else begin
    {
      hide SchemaOk, DbOk, Passes, Orphan;
      ok := RunPending(true, {});
      KeptAll(old(pending));
      if !ok {
        db := begin;
      }
      pending := [];
    }

    /** One statement of a transaction block. */
    method Execute(op: Op) returns (ok: bool)
      requires Valid() && OpOk(sch, op)
      modifies `db, `pending, `overrides, `allOverride, `allDeferred
      ensures Valid()
      ensures if ok then Does(sch, inBlock, op, old(Now()), Now()) else Fails(sch, inBlock, op, old(Now()))
      ensures ok && old(Safe()) && NoHole(sch, op, old(Now())) ==> Safe()
    {
      hide SchemaOk, DbOk, AllPendingOk, OrphansCovered, Deleted, Hole, Covered, Passes, Refused, ImmediateOk,
        OnlyDeferredReference, OthersRemain, Stops;
      match op {
        case Insert(table, rowNumber, cells) => ok := Insert(table, rowNumber, cells);
        case Update(id, next) => ok := Update(id, next);
        case Delete(table, where) => ok := Delete(table, where);
        case SetConstraints(all, names, deferred) =>
          ghost var before := DeferredKeys();
          ok := SetConstraints(all, names, deferred);
          assert inBlock ==> DeferredKeys() == ModeAfter(sch, before, all, names, deferred);
      }
    }

    /** A whole explicit transaction; any failed statement ends it without committing. `trace` holds the
        states it went through: it commits exactly when every statement succeeded and every check still
        pending at the end passes. */
    method RunTransaction(ops: seq<Op>) returns (committed: bool, ghost trace: seq<State>)
      requires Valid() && DbOk(sch, begin) && NoOrphans(sch, begin) && db == begin && pending == []
      requires forall i :: 0 <= i < |ops| ==> OpOk(sch, ops[i])
      modifies `db, `pending, `overrides, `allOverride, `allDeferred
      ensures Valid() && pending == [] && IsRun(sch, inBlock, ops, trace) && trace[0] == old(Now())
      ensures committed <==> |trace| == |ops| + 1 && AllPass(sch, trace[|ops|])
      ensures |trace| <= |ops| ==> Fails(sch, inBlock, ops[|trace| - 1], trace[|trace| - 1])
      ensures db == if committed then trace[|ops|].db else begin
      ensures committed && NoHoles(sch, ops, trace) ==> NoOrphans(sch, db)
      ensures |trace| == |ops| + 1 && NoHoles(sch, ops, trace) ==>
        (committed <==> NoOrphans(sch, trace[|ops|].db) && NoneStale(sch, trace[|ops|]))
      ensures KeepsReferred(sch, ops, trace) ==> NoOrphans(sch, db)
      ensures (forall f :: f in sch.fks ==> f.child != f.parent) && NoneOverwrites(sch, ops, trace) ==>
        NoOrphans(sch, db)
    {
      hide SchemaOk, DbOk, Orphan, Covered, Passes, OpOk, Does, Fails, NoHole, UpdateKeeps, Overwrites, NoneStale;
      trace := [Now()];
      KeptColumns(sch, ops, trace);
      for i := 0 to |ops|
        invariant Valid() && |trace| == i + 1 && trace[i] == Now() && trace[0] == old(Now())
        invariant IsRun(sch, inBlock, ops, trace) && (NoHoles(sch, ops, trace) ==> Safe())
      {
        var ok := Execute(ops[i]);
        if !ok {
          db, pending := begin, [];
          committed := false;
          return;
        }
        ghost var before := trace;
        trace := trace + [Now()];
        NoHolesSnoc(sch, ops, before, Now());
      }
      KeptColumns(sch, ops, trace);
      if Safe() { CommitIff(sch, Now()); }
      committed := Commit();
    }

    /** Only checks of deferred keys were added. */
    ghost predicate OnlyDeferredAdded(before: seq<Pending>)
      reads this
    {
      forall f, vals :: f in sch.fks && !IsDeferred(f) && Covered(pending, f, vals) ==> Covered(before, f, vals)
    }
  }

  // ---- One key's loop ----

  /** The loop over the scanned children of one key; `s` is the database the scan saw. */
  ghost predicate KeyInv(sch: Schema, a: Db, s: Db, db: Db, pending: seq<Pending>, table: Name, cells: Cells,
                         f: FK, vals: Tuple, rows: seq<Row>, j: nat)
  {
    && j <= |rows| && Lists(s, f.child, rows) && Shrinks(sch, a, s) && Shrinks(sch, s, db)
    && Effect(sch, a, db, pending, table, cells) && AllPendingOk(sch, pending)
    && RowsDone(db, pending, f, vals, rows, j)
    && (f.onDelete == SetNull ==> forall k :: j <= k < |rows| ==> rows[k].id in db && db[rows[k].id] == rows[k].cells)
  }

  /** What the loop is run for. */
  ghost predicate KeyFor(sch: Schema, a: Db, table: Name, cells: Cells, f: FK, vals: Tuple) {
    && SchemaOk(sch) && DbOk(sch, a) && f in sch.fks && f.parent == table
    && Fits(cells, f.refs) && Project(cells, f.refs) == Some(vals)
  }

  lemma {:induction false} KeyStart(sch: Schema, a: Db, db: Db, pending: seq<Pending>, table: Name, cells: Cells,
                                    f: FK, vals: Tuple, rows: seq<Row>)
    requires Effect(sch, a, db, pending, table, cells) && Lists(db, f.child, rows) && AllPendingOk(sch, pending)
    ensures KeyInv(sch, a, db, db, pending, table, cells, f, vals, rows, 0)
  {
    hide RemovedHandled, RemovedReachable, NullsJustified;
    ShrinksSelf(sch, db);
  }

  lemma {:induction false} KeySkip(sch: Schema, a: Db, s: Db, db: Db, pending: seq<Pending>, table: Name, cells: Cells,
                                   f: FK, vals: Tuple, rows: seq<Row>, j: nat)
    requires KeyInv(sch, a, s, db, pending, table, cells, f, vals, rows, j) && j < |rows|
    requires !Matches(rows[j].cells, f, vals)
    ensures KeyInv(sch, a, s, db, pending, table, cells, f, vals, rows, j + 1)
  {
    hide Effect, NullsOnly, Covered;
    if rows[j].id in db && Matches(db[rows[j].id], f, vals) {
      MatchesBack(sch, f, s[rows[j].id], db[rows[j].id], vals);
    }
  }

  lemma {:induction false} ChildWidth(sch: Schema, s: Db, f: FK, rows: seq<Row>, j: nat)
    requires SchemaOk(sch) && DbOk(sch, s) && Lists(s, f.child, rows) && j < |rows|
    ensures f.child in sch.tables && |rows[j].cells| == sch.tables[f.child].ncols
  {
  }

  lemma {:induction false} KeyCascade(sch: Schema, a: Db, s: Db, b: Db, c: Db, p: seq<Pending>, q: seq<Pending>,
                                      table: Name, cells: Cells, f: FK, vals: Tuple, rows: seq<Row>, j: nat)
    requires KeyInv(sch, a, s, b, p, table, cells, f, vals, rows, j) && j < |rows| && Matches(rows[j].cells, f, vals)
    requires KeyFor(sch, a, table, cells, f, vals) && f.onDelete == Cascade && p <= q && AllPendingOk(sch, q)
    requires Effect(sch, b, c, q, f.child, rows[j].cells) && Handled(sch, c, q, f.child, rows[j].cells)
    ensures KeyInv(sch, a, s, c - {rows[j].id}, q, table, cells, f, vals, rows, j + 1)
  {
    hide Effect, Handled, NullsOnly, RowsDone, Project, SchemaOk, DbOk, Covered;
    var mid := rows[j].id;
    MatchesBack(sch, f, a[mid], s[mid], vals);
    assert CascadeStep(sch, a, table, cells, mid);
    EffectShrinks(sch, b, c, q, f.child, rows[j].cells);
    CascadeShrinks(sch, s, b, c, c - {mid}, mid);
    ShrinksTransitive(sch, b, c, c - {mid});
    RowsDoneShrinks(sch, b, c - {mid}, p, q, f, vals, rows, j);
    RowsDoneGone(c - {mid}, q, f, vals, rows, j);
    EffectCascade(sch, a, b, c, c - {mid}, p, q, table, cells, mid, rows[j].cells);
  }

  lemma {:induction false} KeyChild(sch: Schema, a: Db, s: Db, b: Db, p: seq<Pending>, table: Name, cells: Cells,
                                    f: FK, vals: Tuple, rows: seq<Row>, j: nat)
    requires KeyInv(sch, a, s, b, p, table, cells, f, vals, rows, j) && j < |rows| && Matches(rows[j].cells, f, vals)
    ensures rows[j].id in a && rows[j].id.table == f.child && Matches(a[rows[j].id], f, vals)
    ensures NullsOnly(sch, rows[j].id.table, a[rows[j].id], rows[j].cells)
  {
    hide Effect, NullsOnly, RowsDone, Matches;
    MatchesBack(sch, f, a[rows[j].id], s[rows[j].id], vals);
  }

  /** A child's own actions were refused: so is the delete. */
  lemma {:induction false} KeyRefused(sch: Schema, a: Db, s: Db, b: Db, p: seq<Pending>, table: Name, cells: Cells,
                                      f: FK, vals: Tuple, rows: seq<Row>, j: nat, depth: nat, deferred: set<FK>)
    requires KeyInv(sch, a, s, b, p, table, cells, f, vals, rows, j) && j < |rows| && Matches(rows[j].cells, f, vals)
    requires KeyFor(sch, a, table, cells, f, vals) && f.onDelete == Cascade
    requires Refused(sch, b, f.child, rows[j].cells, depth + 1, deferred)
    ensures Refused(sch, a, table, cells, depth, deferred)
  {
    hide Lists, NullsOnly, RowsDone, Project, SchemaOk, DbOk, Matches, Refused, RemovedHandled, RemovedReachable,
      NullsJustified, RemovedAcyclic;
    var mid := rows[j].id;
    KeyChild(sch, a, s, b, p, table, cells, f, vals, rows, j);
    assert CascadeStep(sch, a, table, cells, mid);
    RefusedThrough(sch, a, b, table, cells, mid, rows[j].cells, depth, deferred);
  }

  lemma {:induction false} KeyBlocked(sch: Schema, a: Db, s: Db, b: Db, p: seq<Pending>, table: Name, cells: Cells,
                                      f: FK, vals: Tuple, rows: seq<Row>, j: nat, depth: nat, deferred: set<FK>)
    requires KeyInv(sch, a, s, b, p, table, cells, f, vals, rows, j) && j < |rows| && Matches(rows[j].cells, f, vals)
    requires KeyFor(sch, a, table, cells, f, vals) && f.onDelete == Block && f !in deferred
    ensures Refused(sch, a, table, cells, depth, deferred)
  {
    hide KeyInv, Project, Matches;
    KeyChild(sch, a, s, b, p, table, cells, f, vals, rows, j);
    assert Blocked(sch, a, table, cells, deferred);
  }

  lemma {:induction false} EffectShrinks(sch: Schema, a: Db, b: Db, pending: seq<Pending>, table: Name, cells: Cells)
    requires Effect(sch, a, b, pending, table, cells)
    ensures Shrinks(sch, a, b)
  {
  }

  lemma {:induction false} RowsDoneGone(db: Db, pending: seq<Pending>, f: FK, vals: Tuple, rows: seq<Row>, j: nat)
    requires j < |rows| && RowsDone(db, pending, f, vals, rows, j)
    requires rows[j].id in db ==>
      !Matches(db[rows[j].id], f, vals) || (f.onDelete == Block && Covered(pending, f, vals))
    ensures RowsDone(db, pending, f, vals, rows, j + 1)
  {
  }

  lemma {:induction false} KeySetNull(sch: Schema, a: Db, s: Db, b: Db, p: seq<Pending>, table: Name, cells: Cells,
                                      f: FK, vals: Tuple, rows: seq<Row>, j: nat)
    requires KeyInv(sch, a, s, b, p, table, cells, f, vals, rows, j) && j < |rows| && Matches(rows[j].cells, f, vals)
    requires KeyFor(sch, a, table, cells, f, vals) && f.onDelete == SetNull
    ensures KeyInv(sch, a, s, b[rows[j].id := Nulled(rows[j].cells, f.locals)], p, table, cells, f, vals, rows, j + 1)
  {
    hide Effect, NullsOnly, RowsDone, Project, SchemaOk, DbOk, Covered, Matches;
    var id := rows[j].id;
    var d := b[id := Nulled(rows[j].cells, f.locals)];
    EffectSetNull(sch, a, b, p, table, cells, f, vals, id);
    SetNullShrinks(sch, b, f, id);
    ShrinksTransitive(sch, s, b, d);
    RowsDoneShrinks(sch, b, d, p, p, f, vals, rows, j);
    RowsDoneGone(d, p, f, vals, rows, j);
  }

  lemma {:induction false} KeyDefer(sch: Schema, a: Db, s: Db, db: Db, p: seq<Pending>, table: Name, cells: Cells,
                                    f: FK, vals: Tuple, rows: seq<Row>, j: nat)
    requires KeyInv(sch, a, s, db, p, table, cells, f, vals, rows, j) && j < |rows|
    requires KeyFor(sch, a, table, cells, f, vals) && f.onDelete == Block
    ensures KeyInv(sch, a, s, db, p + [ParentCheck(f.name, f.child, table, vals)], table, cells, f, vals, rows, j + 1)
  {
    hide Effect, NullsOnly, RowsDone, SchemaOk, DbOk, Matches;
    var c := ParentCheck(f.name, f.child, table, vals);
    EffectPending(sch, a, db, p, p + [c], table, cells);
    ShrinksSelf(sch, db);
    RowsDoneShrinks(sch, db, db, p, p + [c], f, vals, rows, j);
    assert c in p + [c];
    RowsDoneGone(db, p + [c], f, vals, rows, j);
    assert PendingFor(f, c);
  }

  lemma {:induction false} KeyValid(sch: Schema, a: Db, db: Db, pending: seq<Pending>, table: Name, cells: Cells)
    requires SchemaOk(sch) && DbOk(sch, a) && Effect(sch, a, db, pending, table, cells)
    ensures DbOk(sch, db)
  {
    hide SchemaOk, DbOk, RemovedHandled, RemovedReachable, NullsJustified;
    ShrinksDbOk(sch, a, db);
  }

  lemma {:induction false} KeyEnd(sch: Schema, a: Db, s: Db, db: Db, pending: seq<Pending>, table: Name, cells: Cells,
                                  f: FK, vals: Tuple, rows: seq<Row>)
    requires KeyInv(sch, a, s, db, pending, table, cells, f, vals, rows, |rows|)
    ensures KeyHandled(db, pending, f, vals) && Effect(sch, a, db, pending, table, cells) && Shrinks(sch, s, db)
  {
    hide Effect, RowsDone, KeyHandled;
    AllRowsDone(sch, s, db, pending, f, vals, rows);
  }

  lemma {:induction false} FkFits(sch: Schema, f: FK, cells: Cells)
    requires SchemaOk(sch) && f in sch.fks && f.parent in sch.tables && |cells| == sch.tables[f.parent].ncols
    ensures Fits(cells, f.refs)
  {
    assert FkOk(sch, f);
  }

  lemma {:induction false} HandledNone(sch: Schema, db: Db, pending: seq<Pending>, table: Name, cells: Cells)
    ensures HandledTo(sch, 0, db, pending, table, cells)
  {
  }

  lemma {:induction false} HandledOneMore(sch: Schema, n: nat, db: Db, pending: seq<Pending>, table: Name, cells: Cells)
    requires n < |sch.fks| && HandledTo(sch, n, db, pending, table, cells)
    requires sch.fks[n].parent == table && Fits(cells, sch.fks[n].refs) && Project(cells, sch.fks[n].refs).Some? ==>
      KeyHandled(db, pending, sch.fks[n], Project(cells, sch.fks[n].refs).value)
    ensures HandledTo(sch, n + 1, db, pending, table, cells)
  {
    hide KeyHandled, Project;
  }

  // ---- DELETE ----

  ghost function Targets(db: Db, table: Name, where: Cells -> bool): set<RowId> {
    set id | id in db && id.table == table && where(db[id])
  }

  ghost function TargetsTo(rows: seq<Row>, where: Cells -> bool, n: nat): set<RowId>
    requires n <= |rows|
  {
    set k | 0 <= k < n && where(rows[k].cells) :: rows[k].id
  }

  lemma {:induction false} TargetsStep(rows: seq<Row>, where: Cells -> bool, n: nat)
    requires n < |rows|
    ensures where(rows[n].cells) ==> TargetsTo(rows, where, n + 1) == TargetsTo(rows, where, n) + {rows[n].id}
    ensures !where(rows[n].cells) ==> TargetsTo(rows, where, n + 1) == TargetsTo(rows, where, n)
  {
  }

  lemma {:induction false} TargetsAll(db: Db, table: Name, rows: seq<Row>, where: Cells -> bool)
    requires Lists(db, table, rows)
    ensures TargetsTo(rows, where, |rows|) == Targets(db, table, where)
  {
    forall id | id in Targets(db, table, where) ensures id in TargetsTo(rows, where, |rows|) {
      var i :| 0 <= i < |rows| && rows[i].id == id;
    }
  }

  lemma {:induction false} RowWidth(sch: Schema, a: Db, table: Name, rows: seq<Row>, i: nat)
    requires DbOk(sch, a) && Lists(a, table, rows) && i < |rows|
    ensures table in sch.tables && |rows[i].cells| == sch.tables[table].ncols
  {
  }

  lemma {:induction false} DeletedIdle(sch: Schema, a: Db, pending: seq<Pending>)
    ensures Deleted(sch, a, a, pending, {})
  {
    AcyclicIdle(sch, a, a);
  }

  lemma {:induction false} DeleteOne(sch: Schema, a: Db, b: Db, c: Db, p: seq<Pending>, q: seq<Pending>, table: Name,
                                     rows: seq<Row>, where: Cells -> bool, i: nat)
    requires SchemaOk(sch) && DbOk(sch, a) && Lists(a, table, rows) && i < |rows| && p <= q
    requires Deleted(sch, a, b, p, TargetsTo(rows, where, i)) && where(rows[i].cells)
    requires Effect(sch, b, c, q, table, rows[i].cells) && Handled(sch, c, q, table, rows[i].cells)
    ensures Deleted(sch, a, c - {rows[i].id}, q, TargetsTo(rows, where, i + 1))
    ensures DbOk(sch, c - {rows[i].id})
  {
    hide Deleted, Effect, Handled, SchemaOk, DbOk;
    NullsOnlySelf(sch, table, rows[i].cells);
    TargetsStep(rows, where, i);
    DeletedOneMore(sch, a, b, c, c - {rows[i].id}, p, q, TargetsTo(rows, where, i), rows[i].id, rows[i].cells);
    DeletedDbOk(sch, a, c - {rows[i].id}, q, TargetsTo(rows, where, i + 1));
  }

  lemma {:induction false} DeleteRefused(sch: Schema, a: Db, b: Db, p: seq<Pending>, table: Name, rows: seq<Row>,
                                         where: Cells -> bool, i: nat, deferred: set<FK>)
    requires SchemaOk(sch) && DbOk(sch, a) && Lists(a, table, rows) && i < |rows| && where(rows[i].cells)
    requires Deleted(sch, a, b, p, TargetsTo(rows, where, i)) && Refused(sch, b, table, rows[i].cells, 0, deferred)
    ensures rows[i].id in Targets(a, table, where) && Refused(sch, a, table, a[rows[i].id], 0, deferred)
  {
    hide Refused, SchemaOk, RemovedHandled, RemovedAcyclic, NullExplained, FromRoots, NullsOnly, TargetsTo;
    NullsOnlySelf(sch, table, rows[i].cells);
    RefusedBack(sch, a, b, table, rows[i].cells, rows[i].cells, 0, deferred);
  }

  lemma {:induction false} DeletedDbOk(sch: Schema, a: Db, b: Db, pending: seq<Pending>, roots: set<RowId>)
    requires SchemaOk(sch) && DbOk(sch, a) && Deleted(sch, a, b, pending, roots)
    ensures DbOk(sch, b)
  {
    hide SchemaOk, DbOk, RemovedHandled, RemovedAcyclic, NullExplained, FromRoots, NullsOnly;
    ShrinksDbOk(sch, a, b);
  }

  lemma {:induction false} DeletedCoverage(sch: Schema, a: Db, b: Db, p: seq<Pending>, q: seq<Pending>,
                                           roots: set<RowId>)
    requires SchemaOk(sch) && DbOk(sch, a) && Deleted(sch, a, b, q, roots) && p <= q
    ensures OrphansCovered(sch, a, p) ==> OrphansCovered(sch, b, q)
  {
    hide SchemaOk, DbOk, RemovedAcyclic, NullExplained, FromRoots, NullsOnly, OrphansCovered;
    if OrphansCovered(sch, a, p) {
      DeleteKeepsCoverage(sch, a, b, p, q);
    }
  }

  // ---- The checks a DELETE records ----

  /** Every check added so far is of a deferred key that would have blocked, on a tuple that is gone. */
  ghost predicate AllAdded(sch: Schema, deferred: set<FK>, a: Db, b: Db, table: Name, cells: Cells, p: seq<Pending>,
                           q: seq<Pending>) {
    forall c :: c in q ==> c in p || AddedFor(sch, deferred, a, b, table, cells, c)
  }

  ghost predicate AddedFor(sch: Schema, deferred: set<FK>, a: Db, b: Db, table: Name, cells: Cells, c: Pending) {
    exists f, r, vals :: Recorded(sch, deferred, a, f, r, vals, c) && Gone(sch, a, b, table, cells, f, vals)
  }

  /** The same for the whole statement. */
  ghost predicate StatementAdded(sch: Schema, deferred: set<FK>, a: Db, b: Db, p: seq<Pending>, q: seq<Pending>) {
    forall c :: c in q ==> c in p || DeleteAdds(sch, deferred, a, b, c)
  }

  lemma {:induction false} NothingAdded(sch: Schema, deferred: set<FK>, a: Db, table: Name, cells: Cells,
                                        p: seq<Pending>)
    ensures AllAdded(sch, deferred, a, a, table, cells, p, p)
  {
  }

  lemma {:induction false} NoneAdded(sch: Schema, deferred: set<FK>, a: Db, p: seq<Pending>)
    ensures StatementAdded(sch, deferred, a, a, p, p)
  {
  }

  lemma {:induction false} AddedLater(sch: Schema, deferred: set<FK>, a: Db, b: Db, d: Db, table: Name, cells: Cells,
                                      p: seq<Pending>, q: seq<Pending>)
    requires AllAdded(sch, deferred, a, b, table, cells, p, q) && forall id :: id in d ==> id in b
    ensures AllAdded(sch, deferred, a, d, table, cells, p, q)
  {
    hide Recorded, Gone;
    forall c | c in q && c !in p ensures AddedFor(sch, deferred, a, d, table, cells, c) {
      var f, r, vals :| Recorded(sch, deferred, a, f, r, vals, c) && Gone(sch, a, b, table, cells, f, vals);
      GoneGrows(sch, a, b, d, table, cells, f, vals);
    }
  }

  /** A tuple gone while the child's own actions ran was the child's or that of a row below it. */
  lemma {:induction false} GoneThrough(sch: Schema, a: Db, b: Db, c: Db, mid: RowId, y: Cells, f: FK, vals: Tuple)
    requires SchemaOk(sch) && DbOk(sch, a) && Shrinks(sch, a, b) && Shrinks(sch, b, c) && f in sch.fks
    requires mid in a && NullsOnly(sch, mid.table, a[mid], y) && Gone(sch, b, c, mid.table, y, f, vals)
    ensures GoneRow(a, c - {mid}, f, vals)
  {
    hide Project, Nullable, NullsOnly;
    var d := c - {mid};
    assert FkOk(sch, f);
    if f.parent == mid.table && Fits(y, f.refs) && Project(y, f.refs) == Some(vals) {
      FitsRefs(sch, a, f, mid);
      RefTupleStable(sch, f, a[mid], y);
      assert mid !in d;
    } else {
      var r :| r in b && r !in c && r.table == f.parent && Fits(b[r], f.refs) && Project(b[r], f.refs) == Some(vals);
      FitsRefs(sch, a, f, r);
      RefTupleStable(sch, f, a[r], b[r]);
      assert r !in d;
    }
  }

  lemma {:induction false} RecordedBack(sch: Schema, deferred: set<FK>, a: Db, b: Db, f: FK, r: RowId, vals: Tuple,
                                        c: Pending)
    requires Shrinks(sch, a, b) && Recorded(sch, deferred, b, f, r, vals, c)
    ensures Recorded(sch, deferred, a, f, r, vals, c)
  {
    hide Matches, NullsOnly;
    MatchesBack(sch, f, a[r], b[r], vals);
  }

  lemma {:induction false} AddedThrough(sch: Schema, deferred: set<FK>, a: Db, b: Db, c: Db, mid: RowId, y: Cells,
                                        x: Pending)
    requires SchemaOk(sch) && DbOk(sch, a) && Shrinks(sch, a, b) && Shrinks(sch, b, c)
    requires mid in a && NullsOnly(sch, mid.table, a[mid], y) && AddedFor(sch, deferred, b, c, mid.table, y, x)
    ensures DeleteAdds(sch, deferred, a, c - {mid}, x)
  {
    hide Gone, GoneRow, SchemaOk, DbOk, Shrinks, NullsOnly, Recorded;
    var f, r, vals :| Recorded(sch, deferred, b, f, r, vals, x) && Gone(sch, b, c, mid.table, y, f, vals);
    RecordedBack(sch, deferred, a, b, f, r, vals, x);
    assert f in sch.fks by { RecordedKey(sch, deferred, b, f, r, vals, x); }
    GoneThrough(sch, a, b, c, mid, y, f, vals);
  }

  lemma {:induction false} RecordedKey(sch: Schema, deferred: set<FK>, a: Db, f: FK, r: RowId, vals: Tuple, c: Pending)
    requires Recorded(sch, deferred, a, f, r, vals, c)
    ensures f in sch.fks && f in deferred && f.onDelete == Block
  {
  }

  lemma {:induction false} AddedHere(sch: Schema, deferred: set<FK>, a: Db, b: Db, table: Name, cells: Cells,
                                     c: Pending)
    requires DeleteAdds(sch, deferred, a, b, c)
    ensures AddedFor(sch, deferred, a, b, table, cells, c)
  {
    hide Recorded;
    var f, r, vals :| Recorded(sch, deferred, a, f, r, vals, c) && GoneRow(a, b, f, vals);
    assert Gone(sch, a, b, table, cells, f, vals);
  }

  lemma {:induction false} DeleteAddsLater(sch: Schema, deferred: set<FK>, a: Db, b: Db, d: Db, c: Pending)
    requires DeleteAdds(sch, deferred, a, b, c) && forall id :: id in d ==> id in b
    ensures DeleteAdds(sch, deferred, a, d, c)
  {
    hide Recorded;
    var f, r, vals :| Recorded(sch, deferred, a, f, r, vals, c) && GoneRow(a, b, f, vals);
    assert GoneRow(a, d, f, vals);
  }

  lemma {:induction false} KeyCascadeAdds(sch: Schema, deferred: set<FK>, a: Db, s: Db, b: Db, c: Db,
                                          before: seq<Pending>, p: seq<Pending>, q: seq<Pending>, table: Name,
                                          cells: Cells, f: FK, vals: Tuple, rows: seq<Row>, j: nat)
    requires KeyInv(sch, a, s, b, p, table, cells, f, vals, rows, j) && j < |rows| && Matches(rows[j].cells, f, vals)
    requires SchemaOk(sch) && DbOk(sch, a) && Effect(sch, b, c, q, f.child, rows[j].cells)
    requires AllAdded(sch, deferred, a, b, table, cells, before, p)
    requires AllAdded(sch, deferred, b, c, f.child, rows[j].cells, p, q)
    ensures AllAdded(sch, deferred, a, c - {rows[j].id}, table, cells, before, q)
  {
    hide Matches, RowsDone, SchemaOk, DbOk, AddedFor, NullsOnly, RemovedHandled, RemovedReachable, NullsJustified,
      RemovedAcyclic, DeleteAdds;
    var mid := rows[j].id;
    var d := c - {mid};
    KeyChild(sch, a, s, b, p, table, cells, f, vals, rows, j);
    ShrinksTransitive(sch, a, s, b);
    AddedLater(sch, deferred, a, b, d, table, cells, before, p);
    forall x | x in q && x !in before ensures AddedFor(sch, deferred, a, d, table, cells, x) {
      if x !in p {
        AddedThrough(sch, deferred, a, b, c, mid, rows[j].cells, x);
        AddedHere(sch, deferred, a, d, table, cells, x);
      }
    }
  }

  lemma {:induction false} KeyDeferAdds(sch: Schema, deferred: set<FK>, a: Db, s: Db, b: Db, before: seq<Pending>,
                                        p: seq<Pending>, table: Name, cells: Cells, f: FK, vals: Tuple,
                                        rows: seq<Row>, j: nat)
    requires KeyInv(sch, a, s, b, p, table, cells, f, vals, rows, j) && j < |rows| && Matches(rows[j].cells, f, vals)
    requires KeyFor(sch, a, table, cells, f, vals) && f.onDelete == Block && f in deferred
    requires AllAdded(sch, deferred, a, b, table, cells, before, p)
    ensures AllAdded(sch, deferred, a, b, table, cells, before, p + [ParentCheck(f.name, f.child, table, vals)])
  {
    hide Matches, KeyInv, Project;
    var c := ParentCheck(f.name, f.child, table, vals);
    KeyChild(sch, a, s, b, p, table, cells, f, vals, rows, j);
    assert Recorded(sch, deferred, a, f, rows[j].id, vals, c) && Gone(sch, a, b, table, cells, f, vals);
    assert AddedFor(sch, deferred, a, b, table, cells, c);
  }

  lemma {:induction false} DeleteOneAdds(sch: Schema, deferred: set<FK>, a: Db, b: Db, c: Db, before: seq<Pending>,
                                         p: seq<Pending>, q: seq<Pending>, table: Name, rows: seq<Row>,
                                         where: Cells -> bool, i: nat)
    requires SchemaOk(sch) && DbOk(sch, a) && Lists(a, table, rows) && i < |rows|
    requires Deleted(sch, a, b, p, TargetsTo(rows, where, i)) && Effect(sch, b, c, q, table, rows[i].cells)
    requires StatementAdded(sch, deferred, a, b, before, p)
    requires AllAdded(sch, deferred, b, c, table, rows[i].cells, p, q)
    ensures StatementAdded(sch, deferred, a, c - {rows[i].id}, before, q)
  {
    hide SchemaOk, DbOk, AddedFor, NullsOnly, RemovedHandled, RemovedReachable, NullsJustified, RemovedAcyclic,
      DeleteAdds, NullExplained, FromRoots, TargetsTo;
    NullsOnlySelf(sch, table, rows[i].cells);
    var d := c - {rows[i].id};
    forall x | x in q && x !in before ensures DeleteAdds(sch, deferred, a, d, x) {
      if x in p {
        DeleteAddsLater(sch, deferred, a, b, d, x);
      } else {
        AddedThrough(sch, deferred, a, b, c, rows[i].id, rows[i].cells, x);
      }
    }
  }

  /** Whether the checks pass after a DELETE: those already pending do, and nothing is left that references a row it
      removed through a deferred key. */
  lemma {:induction false} DeleteOutcome(sch: Schema, inBlock: bool, op: Op, a: State, b: State)
    requires SchemaOk(sch) && OpOk(sch, op) && op.Delete? && Does(sch, inBlock, op, a, b)
    ensures AllPass(sch, b) <==>
      && (forall c :: c in a.pending ==> Passes(sch, b.db, c))
      && (forall f, r, vals :: f in a.deferred && f.onDelete == Block && GoneRow(a.db, b.db, f, vals) ==>
            !Orphan(sch, b.db, f, r, vals))
  {
    hide SchemaOk, Orphan, GoneRow, Recorded, Deleted, Passes;
    assert forall c :: c in a.pending ==> c in b.pending;
    if AllPass(sch, b) {
      forall f: FK, r, vals | f.onDelete == Block && GoneRow(a.db, b.db, f, vals)
        ensures !Orphan(sch, b.db, f, r, vals)
      {
        if Orphan(sch, b.db, f, r, vals) { GoneOrphanFails(sch, op, a, b, f, r, vals); }
      }
    }
    if (forall c :: c in a.pending ==> Passes(sch, b.db, c)) &&
       (forall f, r, vals :: f in a.deferred && f.onDelete == Block && GoneRow(a.db, b.db, f, vals) ==>
          !Orphan(sch, b.db, f, r, vals)) {
      forall c | c in b.pending ensures Passes(sch, b.db, c) {
        if c !in a.pending {
          var f, r, vals :| Recorded(sch, a.deferred, a.db, f, r, vals, c) && GoneRow(a.db, b.db, f, vals);
          RecordedKey(sch, a.deferred, a.db, f, r, vals, c);
          RecordedPasses(sch, a.deferred, a.db, b.db, f, r, vals, c);
        }
      }
    }
  }

  lemma {:induction false} GoneOrphanFails(sch: Schema, op: Op, a: State, b: State, f: FK, r: RowId, vals: Tuple)
    requires SchemaOk(sch) && OpOk(sch, op) && op.Delete?
    requires Deleted(sch, a.db, b.db, b.pending, Targets(a.db, op.table, op.where))
    requires f.onDelete == Block && GoneRow(a.db, b.db, f, vals) && Orphan(sch, b.db, f, r, vals)
    ensures !AllPass(sch, b)
  {
    hide SchemaOk, Passes, Project, ParentExists, NullExplained, FromRoots, RemovedAcyclic, Shrinks;
    var x :| x in a.db && x !in b.db && x.table == f.parent && Fits(a.db[x], f.refs) &&
      Project(a.db[x], f.refs) == Some(vals);
    assert Handled(sch, b.db, b.pending, x.table, a.db[x]);
    assert Covered(b.pending, f, vals);
    PassedIsNoOrphan(sch, b.db, f, r, vals,
                     if ChildCheck(f.name, f.child, f.parent, f.refs, vals) in b.pending
                     then ChildCheck(f.name, f.child, f.parent, f.refs, vals)
                     else ParentCheck(f.name, f.child, f.parent, vals));
  }

  lemma {:induction false} RecordedPasses(sch: Schema, deferred: set<FK>, a: Db, b: Db, f: FK, r: RowId, vals: Tuple,
                                          c: Pending)
    requires SchemaOk(sch) && Recorded(sch, deferred, a, f, r, vals, c)
    requires forall w :: !Orphan(sch, b, f, w, vals)
    ensures Passes(sch, b, c)
  {
    hide SchemaOk, Orphan;
    forall g | g in sch.fks && PendingFor(g, c) ensures g == f {
      if g != f { NamesApart(sch, f, g); }
    }
  }

  // ---- Child checks ----

  /** Key `f` of a row of `table` with these cells references `vals`. */
  ghost predicate ChildOf(sch: Schema, table: Name, cells: Cells, f: FK, vals: Tuple) {
    f in sch.fks && f.child == table && Matches(cells, f, vals)
  }

  lemma {:induction false} ChildTuple(sch: Schema, table: Name, cells: Cells, f: FK)
    requires SchemaOk(sch) && f in sch.fks && f.child == table && table in sch.tables
    requires |cells| == sch.tables[table].ncols
    ensures Fits(cells, f.locals) && f.parent in sch.tables && |f.refs| == |f.locals|
    ensures forall vals :: Matches(cells, f, vals) <==> Project(cells, f.locals) == Some(vals)
  {
    assert FkOk(sch, f);
  }

  /** A recorded check is of a key of the schema and says nothing about other keys. */
  lemma {:induction false} Record(sch: Schema, f: FK, c: Pending, pending: seq<Pending>)
    requires SchemaOk(sch) && f in sch.fks && PendingFor(f, c) && AllPendingOk(sch, pending)
    ensures AllPendingOk(sch, pending + [c]) && Covered(pending + [c], f, c.vals)
    ensures forall g, vals :: g in sch.fks && Covered(pending, g, vals) ==> Covered(pending + [c], g, vals)
    ensures forall g, vals :: g in sch.fks && g != f && Covered(pending + [c], g, vals) ==> Covered(pending, g, vals)
  {
    forall g, vals | g in sch.fks && g != f && Covered(pending + [c], g, vals) ensures Covered(pending, g, vals) {
      NamesApart(sch, f, g);
    }
  }

  lemma {:induction false} NamesApart(sch: Schema, f: FK, g: FK)
    requires SchemaOk(sch) && f in sch.fks && g in sch.fks && f != g
    ensures f.child != g.child || f.name != g.name
  {
    var i :| 0 <= i < |sch.fks| && sch.fks[i] == f;
    var j :| 0 <= j < |sch.fks| && sch.fks[j] == g;
  }

  // ---- INSERT and UPDATE ----

  datatype Op =
    | Insert(table: Name, rowNumber: Bytes, cells: Cells)
    | Update(id: RowId, next: Cells)
    | Delete(table: Name, where: Cells -> bool)
    | SetConstraints(all: bool, names: seq<Name>, deferred: bool)

  ghost predicate OpOk(sch: Schema, op: Op) {
    match op
    case Insert(table, _, cells) => table in sch.tables && |cells| == sch.tables[table].ncols
    case Update(id, next) => id.table in sch.tables && |next| == sch.tables[id.table].ncols
    case _ => true
  }

  /** The row key: the primary key's text, or a generated number without a primary key; None for a NULL key. */
  function RowKeyOf(sch: Schema, table: Name, rowNumber: Bytes, cells: Cells): Option<Bytes>
    requires table in sch.tables && |cells| == sch.tables[table].ncols
  {
    var pk := sch.tables[table].pk;
    if pk < |cells| then (if cells[pk].Null? then None else Some(cells[pk].text)) else Some(rowNumber)
  }

  /** `branchRowKey`: the new version's own key, or the old one without a primary key; None for a NULL key,
      which NOT NULL refuses. */
  function UpdateTarget(sch: Schema, id: RowId, next: Cells): Option<RowId>
    requires id.table in sch.tables && |next| == sch.tables[id.table].ncols
  {
    var pk := sch.tables[id.table].pk;
    if pk >= |next| then Some(id)
    else if next[pk].Null? then None
    else Some(RowId(id.table, next[pk].text))
  }

  lemma {:induction false} PkInRange(sch: Schema, table: Name, f: FK)
    requires SchemaOk(sch) && f in sch.fks && f.parent == table && table in sch.tables && sch.tables[table].pk in f.refs
    ensures sch.tables[table].pk < sch.tables[table].ncols
  {
    assert FkOk(sch, f);
  }

  lemma {:induction false} InsertDbOk(sch: Schema, db: Db, id: RowId, cells: Cells)
    requires SchemaOk(sch) && DbOk(sch, db) && id.table in sch.tables && |cells| == sch.tables[id.table].ncols
    requires sch.tables[id.table].pk < |cells| ==> cells[sch.tables[id.table].pk] == RC.Text(id.key)
    ensures DbOk(sch, db[id := cells])
  {
    hide SchemaOk;
    forall f | f in sch.fks && f.parent == id.table && sch.tables[id.table].pk in f.refs
      ensures sch.tables[id.table].pk < |cells| && cells[sch.tables[id.table].pk] == RC.Text(id.key)
    {
      PkInRange(sch, id.table, f);
    }
  }

  lemma {:induction false} RowShape(sch: Schema, db: Db, id: RowId)
    requires DbOk(sch, db) && id in db
    ensures id.table in sch.tables && |db[id]| == sch.tables[id.table].ncols
  {
  }

  lemma {:induction false} CoveredGrows(sch: Schema, p: seq<Pending>, q: seq<Pending>)
    requires p <= q
    ensures forall f, vals :: f in sch.fks && Covered(p, f, vals) ==> Covered(q, f, vals)
  {
    assert forall c :: c in p ==> c in q;
  }

  lemma {:induction false} InsertKeepsCoverage(sch: Schema, db: Db, p: seq<Pending>, q: seq<Pending>, id: RowId,
                                               cells: Cells)
    requires p <= q && id !in db
    requires forall f, vals :: ChildOf(sch, id.table, cells, f, vals) ==>
      Covered(q, f, vals) || ParentExists(db, f.parent, f.refs, vals)
    ensures OrphansCovered(sch, db, p) ==> OrphansCovered(sch, db[id := cells], q)
  {
    hide Project, Matches, Covered;
    CoveredGrows(sch, p, q);
    var d := db[id := cells];
    if OrphansCovered(sch, db, p) {
      forall f, r, vals | Orphan(sch, d, f, r, vals) ensures Covered(q, f, vals) {
        ParentStays(db, d, f, vals);
        if r == id {
          assert ChildOf(sch, id.table, cells, f, vals);
        } else {
          assert Orphan(sch, db, f, r, vals);
        }
      }
    }
  }

  lemma {:induction false} ParentStays(db: Db, d: Db, f: FK, vals: Tuple)
    requires forall r :: r in db ==> r in d && d[r] == db[r]
    ensures ParentExists(db, f.parent, f.refs, vals) ==> ParentExists(d, f.parent, f.refs, vals)
  {
    hide Project;
  }

  /** Row `id` of the child table of `f` references `prior` as a row of `table`. */
  ghost predicate References(sch: Schema, db: Db, table: Name, prior: Cells, f: FK, id: RowId, vals: Tuple) {
    && f in sch.fks && f.parent == table && Fits(prior, f.refs) && Project(prior, f.refs) == Some(vals)
    && id in db && id.table == f.child && Matches(db[id], f, vals)
  }

  /** The updated row references the tuple that only its own old version offered. The child check runs
      against the old version, and the parent check looks for children of it that are not there yet. */
  ghost predicate Hole(sch: Schema, db: Db, id: RowId, next: Cells, f: FK, vals: Tuple) {
    && f in sch.fks && id in db && f.child == id.table && f.parent == id.table && Matches(next, f, vals)
    && Provides(db[id], f, vals) && !Provides(next, f, vals)
    && forall r :: r in db && r != id && r.table == f.parent ==> !Provides(db[r], f, vals)
  }

  ghost predicate Provides(cells: Cells, f: FK, vals: Tuple) {
    Fits(cells, f.refs) && Project(cells, f.refs) == Some(vals)
  }

  lemma {:induction false} ParentProvides(db: Db, f: FK, vals: Tuple)
    ensures ParentExists(db, f.parent, f.refs, vals) <==>
      exists r :: r in db && r.table == f.parent && Provides(db[r], f, vals)
  {
    hide Project;
    if ParentExists(db, f.parent, f.refs, vals) {
      var r :| r in db && r.table == f.parent && Fits(db[r], f.refs) && Project(db[r], f.refs) == Some(vals);
      assert Provides(db[r], f, vals);
    }
    if exists r :: r in db && r.table == f.parent && Provides(db[r], f, vals) {
      var r :| r in db && r.table == f.parent && Provides(db[r], f, vals);
      assert Fits(db[r], f.refs) && Project(db[r], f.refs) == Some(vals);
    }
  }

  /** Recording deferred checks covers the deferred holes and no others. */
  lemma {:induction false} HolesOnly(sch: Schema, db: Db, p: seq<Pending>, q: seq<Pending>, id: RowId, next: Cells,
                                     deferred: set<FK>)
    requires forall f, vals :: ChildOf(sch, id.table, next, f, vals) && f in deferred ==> Covered(q, f, vals)
    requires forall f, vals :: f in sch.fks && Covered(p, f, vals) ==> Covered(q, f, vals)
    requires forall f, vals :: f in sch.fks && f !in deferred && Covered(q, f, vals) ==> Covered(p, f, vals)
    ensures (forall f, vals :: Hole(sch, db, id, next, f, vals) && f !in deferred ==> Covered(p, f, vals)) <==>
      forall f, vals :: Hole(sch, db, id, next, f, vals) ==> Covered(q, f, vals)
  {
    hide Covered, Provides, Matches;
    forall f, vals | Hole(sch, db, id, next, f, vals)
      ensures Covered(q, f, vals) <==> f in deferred || Covered(p, f, vals)
    {
      assert ChildOf(sch, id.table, next, f, vals);
    }
  }

  /** Exactly when an UPDATE that passed its checks leaves an orphan off the list. */
  lemma {:induction false} UpdateCoverage(sch: Schema, db: Db, p: seq<Pending>, q: seq<Pending>, id: RowId, next: Cells)
    requires p <= q && id in db
    requires forall f, vals :: ChildOf(sch, id.table, next, f, vals) ==>
      Covered(q, f, vals) || ParentExists(db, f.parent, f.refs, vals)
    requires next != db[id] ==> forall f, r, vals :: References(sch, db, id.table, db[id], f, r, vals) ==>
      Covered(q, f, vals)
    ensures OrphansCovered(sch, db, p) ==>
      (OrphansCovered(sch, db[id := next], q) <==>
        forall f, vals :: Hole(sch, db, id, next, f, vals) ==> Covered(q, f, vals))
  {
    hide Project, Matches, Covered, Provides, ParentExists;
    var d := db[id := next];
    if OrphansCovered(sch, db, p) {
      forall f, r, vals | Orphan(sch, d, f, r, vals) && (Hole(sch, db, id, next, f, vals) ==> Covered(q, f, vals))
        ensures Covered(q, f, vals)
      {
        UpdateOrphan(sch, db, p, q, id, next, f, r, vals);
      }
      forall f, vals | Hole(sch, db, id, next, f, vals) ensures Orphan(sch, d, f, id, vals) {
        ParentProvides(d, f, vals);
      }
    }
  }

  lemma {:induction false} UpdateOrphan(sch: Schema, db: Db, p: seq<Pending>, q: seq<Pending>, id: RowId, next: Cells,
                                        f: FK, r: RowId, vals: Tuple)
    requires p <= q && id in db && OrphansCovered(sch, db, p) && Orphan(sch, db[id := next], f, r, vals)
    requires ChildOf(sch, id.table, next, f, vals) ==> Covered(q, f, vals) || ParentExists(db, f.parent, f.refs, vals)
    requires next != db[id] ==> (References(sch, db, id.table, db[id], f, r, vals) ==> Covered(q, f, vals))
    ensures Covered(q, f, vals) || Hole(sch, db, id, next, f, vals)
  {
    hide Project, Matches, Covered, ParentExists;
    CoveredGrows(sch, p, q);
    ParentProvides(db, f, vals);
    ParentProvides(db[id := next], f, vals);
    if ParentExists(db, f.parent, f.refs, vals) {
      assert forall w :: w in db && w != id && w.table == f.parent ==>
        w in db[id := next] && db[id := next][w] == db[w];
      assert f.parent == id.table && Provides(db[id], f, vals) && !Provides(next, f, vals);
      if r != id {
        assert References(sch, db, id.table, db[id], f, r, vals);
      }
    } else if r != id {
      assert Orphan(sch, db, f, r, vals);
    }
  }

  /** Row `r` references a tuple that only the row `target` offers and that `next` does not. For the row
      that is overwritten, what counts is what its new version references. */
  ghost predicate Lost(sch: Schema, db: Db, target: RowId, next: Cells, f: FK, r: RowId, vals: Tuple) {
    && f in sch.fks && target in db && f.parent == target.table
    && Provides(db[target], f, vals) && !Provides(next, f, vals)
    && (forall w :: w in db && w != target && w.table == f.parent ==> !Provides(db[w], f, vals))
    && (r == target || r in db) && r.table == f.child && Matches(if r == target then next else db[r], f, vals)
  }

  /** Those are the orphans the overwriting makes. */
  lemma {:induction false} LostMeans(sch: Schema, db: Db, target: RowId, next: Cells, f: FK, r: RowId, vals: Tuple)
    ensures Lost(sch, db, target, next, f, r, vals) <==>
      && target in db && f.parent == target.table && Provides(db[target], f, vals)
      && Orphan(sch, db[target := next], f, r, vals)
  {
    hide Provides, Matches, ParentExists;
    var d := db[target := next];
    ParentProvides(d, f, vals);
    assert d[target] == next;
    if ParentExists(d, f.parent, f.refs, vals) {
      var w :| w in d && w.table == f.parent && Provides(d[w], f, vals);
      assert w != target ==> w in db && db[w] == d[w];
    }
  }

  ghost predicate LostCovered(sch: Schema, db: Db, pending: seq<Pending>, target: RowId, next: Cells) {
    forall f, r, vals :: Lost(sch, db, target, next, f, r, vals) ==> Covered(pending, f, vals)
  }

  /** Exactly when an UPDATE to a new key leaves an orphan off the list: never if the key was free, else by what
      only the overwritten row offered. */
  lemma {:induction false} RekeyCoverage(sch: Schema, db: Db, p: seq<Pending>, q: seq<Pending>, target: RowId,
                                         next: Cells)
    requires p <= q
    requires forall f, vals :: ChildOf(sch, target.table, next, f, vals) ==>
      Covered(q, f, vals) || ParentExists(db, f.parent, f.refs, vals)
    ensures OrphansCovered(sch, db, p) ==>
      (OrphansCovered(sch, db[target := next], q) <==> target in db ==> LostCovered(sch, db, q, target, next))
  {
    hide Project, Matches, Covered, Provides, ParentExists;
    if OrphansCovered(sch, db, p) {
      if target !in db {
        InsertKeepsCoverage(sch, db, p, q, target, next);
      } else {
        var d := db[target := next];
        if LostCovered(sch, db, q, target, next) {
          forall f, r, vals | Orphan(sch, d, f, r, vals) ensures Covered(q, f, vals) {
            OverwriteOrphan(sch, db, p, q, target, next, f, r, vals);
          }
        }
        if OrphansCovered(sch, db[target := next], q) { LostIsOrphan(sch, db, q, target, next); }
      }
    }
  }

  lemma {:induction false} LostIsOrphan(sch: Schema, db: Db, q: seq<Pending>, target: RowId, next: Cells)
    requires OrphansCovered(sch, db[target := next], q)
    ensures LostCovered(sch, db, q, target, next)
  {
    hide Orphan, Covered, Lost;
    forall f, r, vals | Lost(sch, db, target, next, f, r, vals) ensures Covered(q, f, vals) {
      LostMeans(sch, db, target, next, f, r, vals);
    }
  }

  lemma {:induction false} ProviderStays(db: Db, target: RowId, next: Cells, f: FK, vals: Tuple, w: RowId)
    requires w in db && w != target && w.table == f.parent && Provides(db[w], f, vals)
    ensures ParentExists(db[target := next], f.parent, f.refs, vals)
  {
    hide Project;
    assert db[target := next][w] == db[w];
  }

  lemma {:induction false} OverwriteOrphan(sch: Schema, db: Db, p: seq<Pending>, q: seq<Pending>, target: RowId,
                                           next: Cells, f: FK, r: RowId, vals: Tuple)
    requires p <= q && target in db && OrphansCovered(sch, db, p) && Orphan(sch, db[target := next], f, r, vals)
    requires ChildOf(sch, target.table, next, f, vals) ==>
      Covered(q, f, vals) || ParentExists(db, f.parent, f.refs, vals)
    ensures Covered(q, f, vals) || Lost(sch, db, target, next, f, r, vals)
  {
    hide Project, Matches, Covered, ParentExists, Lost;
    CoveredGrows(sch, p, q);
    ParentProvides(db, f, vals);
    LostMeans(sch, db, target, next, f, r, vals);
    if ParentExists(db, f.parent, f.refs, vals) {
      var w :| w in db && w.table == f.parent && Provides(db[w], f, vals);
      if w != target { ProviderStays(db, target, next, f, vals, w); }
    } else if r != target {
      assert Orphan(sch, db, f, r, vals);
    }
  }

  // ---- Pending checks ----

  /** What `runOnePending` finds in order. */
  ghost predicate Passes(sch: Schema, db: Db, p: Pending) {
    match p
    case ChildCheck(_, _, parent, refs, vals) => ParentExists(db, parent, refs, vals)
    case ParentCheck(_, _, _, vals) => forall f, id :: f in sch.fks && PendingFor(f, p) ==>
      !Orphan(sch, db, f, id, vals)
  }

  method RunOnePending(sch: Schema, db: Db, p: Pending) returns (ok: bool)
    requires SchemaOk(sch) && DbOk(sch, db) && PendingOk(sch, p)
    ensures ok <==> Passes(sch, db, p)
  {
    hide SchemaOk, DbOk, Project, Matches, ParentExists;
    match p {
      case ChildCheck(_, _, parent, refs, vals) =>
        ghost var f :| f in sch.fks && PendingFor(f, p);
        KeyShape(sch, f);
        ok := ParentTupleExists(sch, db, parent, refs, vals, f);
      case ParentCheck(name, child, parent, vals) =>
        var f := FindKey(sch, p);
        KeyShape(sch, f);
        forall g | g in sch.fks && PendingFor(g, p) ensures g == f {
          if g != f {
            NamesApart(sch, f, g);
          }
        }
        var rows := ScanTable(db, child);
        var matched := false;
        for i := 0 to |rows|
          invariant matched <==> exists k :: 0 <= k < i && Matches(rows[k].cells, f, vals)
        {
          matched := matched || Matches(rows[i].cells, f, vals);
        }
        if !matched {
          assert forall id :: id in db && id.table == child ==> !Matches(db[id], f, vals);
          return true;
        }
        var k :| 0 <= k < |rows| && Matches(rows[k].cells, f, vals);
        ok := ParentTupleExists(sch, db, parent, f.refs, vals, f);
        assert !ok ==> Orphan(sch, db, f, rows[k].id, vals);
    }
  }

  lemma {:induction false} KeyShape(sch: Schema, f: FK)
    requires SchemaOk(sch) && f in sch.fks
    ensures f.parent in sch.tables && |f.refs| == |f.locals|
  {
    assert FkOk(sch, f);
  }

  /** The key a parent check names, found on the child table. */
  method FindKey(sch: Schema, p: Pending) returns (f: FK)
    requires PendingOk(sch, p) && p.ParentCheck? && SchemaOk(sch)
    ensures f in sch.fks && PendingFor(f, p)
  {
    hide SchemaOk;
    ghost var g :| g in sch.fks && PendingFor(g, p);
    for i := 0 to |sch.fks|
      invariant forall k :: 0 <= k < i ==> sch.fks[k] != g
    {
      if sch.fks[i].child == p.child && sch.fks[i].name == p.constraint {
        f := sch.fks[i];
        if f != g {
          NamesApart(sch, f, g);
        }
        return;
      }
    }
    assert false;
  }

  predicate Selected(p: Pending, all: bool, names: set<Name>) {
    all || p.constraint in names
  }

  /** The checks that are not run, in order. */
  function Kept(pending: seq<Pending>, all: bool, names: set<Name>): seq<Pending> {
    if pending == [] then []
    else
      var last := pending[|pending| - 1];
      Kept(pending[..|pending| - 1], all, names) + if Selected(last, all, names) then [] else [last]
  }

  /** `at` lists, in ascending order, where the elements of `a` stand in `b`. */
  ghost predicate Embeds(a: seq<Pending>, b: seq<Pending>, at: seq<nat>) {
    && |at| == |a| && (forall i, j :: 0 <= i < j < |at| ==> at[i] < at[j])
    && (forall i :: 0 <= i < |at| ==> at[i] < |b| && a[i] == b[at[i]])
  }

  /** The checks of other constraints than the named ones, each as often as before and in the same order; none when
      all are meant. */
  ghost predicate OthersRemain(before: seq<Pending>, after: seq<Pending>, all: bool, names: set<Name>) {
    && (forall p :: multiset(after)[p] == if all || p.constraint in names then 0 else multiset(before)[p])
    && Subsequence(after, before)
  }

  ghost predicate Subsequence(a: seq<Pending>, b: seq<Pending>) {
    exists at: seq<nat> :: Embeds(a, b, at)
  }

  lemma {:induction false} SubsequenceSnoc(a: seq<Pending>, b: seq<Pending>, p: Pending)
    requires Subsequence(a, b)
    ensures Subsequence(a, b + [p]) && Subsequence(a + [p], b + [p])
  {
    var at: seq<nat> :| Embeds(a, b, at);
    assert Embeds(a, b + [p], at) && Embeds(a + [p], b + [p], at + [|b|]);
  }

  lemma {:induction false} OthersSnoc(before: seq<Pending>, after: seq<Pending>, all: bool, names: set<Name>,
                                      p: Pending)
    requires OthersRemain(before, after, all, names)
    ensures OthersRemain(before + [p], if all || p.constraint in names then after else after + [p], all, names)
  {
    hide Subsequence;
    SubsequenceSnoc(after, before, p);
  }

  lemma {:induction false} NothingRemains(all: bool, names: set<Name>)
    ensures OthersRemain([], [], all, names)
  {
    assert Embeds([], [], []);
  }

  lemma {:induction false} KeptMeans(pending: seq<Pending>, all: bool, names: set<Name>)
    ensures OthersRemain(pending, Kept(pending, all, names), all, names)
  {
    hide OthersRemain;
    if pending == [] {
      NothingRemains(all, names);
    } else {
      var n := |pending| - 1;
      var p, rest := pending[n], Kept(pending[..n], all, names);
      KeptMeans(pending[..n], all, names);
      assert pending == pending[..n] + [p] && rest + [] == rest;
      OthersSnoc(pending[..n], rest, all, names, p);
    }
  }

  /** Every pending check of a meant constraint passes. */
  lemma {:induction false} SelectedPassMeans(sch: Schema, db: Db, pending: seq<Pending>, all: bool, names: set<Name>)
    ensures SelectedPass(sch, db, pending, all, names) <==>
      forall p :: p in pending && (all || p.constraint in names) ==> Passes(sch, db, p)
  {
    hide Passes;
  }

  /** A run that fails at check `i`: the meant ones before it passed, it did not, and what is left is the others
      before it and itself. */
  ghost predicate StopsAt(sch: Schema, db: Db, before: seq<Pending>, after: seq<Pending>, all: bool, names: set<Name>,
                          i: nat) {
    && i < |before| && (all || before[i].constraint in names) && !Passes(sch, db, before[i])
    && (forall k :: 0 <= k < i && (all || before[k].constraint in names) ==> Passes(sch, db, before[k]))
    && after != [] && after[|after| - 1] == before[i]
    && OthersRemain(before[..i], after[..|after| - 1], all, names)
  }

  ghost predicate Stops(sch: Schema, db: Db, before: seq<Pending>, after: seq<Pending>, all: bool, names: set<Name>) {
    exists i: nat :: StopsAt(sch, db, before, after, all, names, i)
  }

  lemma {:induction false} LeftMeans(sch: Schema, db: Db, pending: seq<Pending>, all: bool, names: set<Name>)
    ensures if SelectedPass(sch, db, pending, all, names)
            then Left(sch, db, pending, all, names) == Kept(pending, all, names)
            else Stops(sch, db, pending, Left(sch, db, pending, all, names), all, names)
  {
    hide Passes, OthersRemain, Kept;
    LeftStart(sch, db, pending, all, names);
    assert [] + Left(sch, db, pending[0..], all, names) == Left(sch, db, pending[0..], all, names);
    LeftFrom(sch, db, pending, all, names, 0);
  }

  lemma {:induction false} LeftFrom(sch: Schema, db: Db, pending: seq<Pending>, all: bool, names: set<Name>, k: nat)
    requires k <= |pending|
    requires forall i :: 0 <= i < k && Selected(pending[i], all, names) ==> Passes(sch, db, pending[i])
    ensures
      var l := Kept(pending[..k], all, names) + Left(sch, db, pending[k..], all, names);
      if SelectedPass(sch, db, pending, all, names) then l == Kept(pending, all, names)
      else Stops(sch, db, pending, l, all, names)
    decreases |pending| - k
  {
    hide Passes, OthersRemain, Kept, Left;
    var before := Kept(pending[..k], all, names);
    if k == |pending| {
      LeftEnd(sch, db, pending, all, names, before);
    } else {
      LeftStep(sch, db, pending, all, names, k, before);
      if Selected(pending[k], all, names) && !Passes(sch, db, pending[k]) {
        KeptMeans(pending[..k], all, names);
        var l := before + [pending[k]];
        assert l[..|l| - 1] == before;
        assert StopsAt(sch, db, pending, l, all, names, k);
      } else {
        assert before + [] == before;
        LeftFrom(sch, db, pending, all, names, k + 1);
      }
    }
  }

  /** What is left on the list after a run: up to the first check that fails, which is kept, the ones not
      selected; what stands behind it is dropped. */
  ghost function Left(sch: Schema, db: Db, pending: seq<Pending>, all: bool, names: set<Name>): seq<Pending> {
    if pending == [] then []
    else if !Selected(pending[0], all, names) then [pending[0]] + Left(sch, db, pending[1..], all, names)
    else if !Passes(sch, db, pending[0]) then [pending[0]]
    else Left(sch, db, pending[1..], all, names)
  }

  lemma {:induction false} LeftStart(sch: Schema, db: Db, pending: seq<Pending>, all: bool, names: set<Name>)
    ensures Kept(pending[..0], all, names) == []
    ensures Left(sch, db, pending, all, names) == [] + Left(sch, db, pending[0..], all, names)
  {
    assert pending[0..] == pending;
  }

  lemma {:induction false} LeftEnd(sch: Schema, db: Db, pending: seq<Pending>, all: bool, names: set<Name>,
                                   remaining: seq<Pending>)
    ensures remaining + Left(sch, db, pending[|pending|..], all, names) == remaining
    ensures pending[..|pending|] == pending
  {
  }

  /** One turn of the loop. */
  lemma {:induction false} LeftStep(sch: Schema, db: Db, pending: seq<Pending>, all: bool, names: set<Name>,
                                    i: nat, remaining: seq<Pending>)
    requires i < |pending|
    ensures Kept(pending[..i + 1], all, names) ==
      Kept(pending[..i], all, names) + if Selected(pending[i], all, names) then [] else [pending[i]]
    ensures remaining + Left(sch, db, pending[i..], all, names) ==
      if !Selected(pending[i], all, names) then remaining + [pending[i]] + Left(sch, db, pending[i + 1..], all, names)
      else if !Passes(sch, db, pending[i]) then remaining + [pending[i]]
      else remaining + Left(sch, db, pending[i + 1..], all, names)
  {
    hide Selected, Passes;
    assert pending[..i + 1][..i] == pending[..i] && pending[..i + 1][i] == pending[i];
    assert pending[i..][0] == pending[i] && pending[i..][1..] == pending[i + 1..];
    var l := Left(sch, db, pending[i + 1..], all, names);
    assert remaining + ([pending[i]] + l) == remaining + [pending[i]] + l;
  }

  /** A check that still has to be looked at: not selected, or found to fail. */
  ghost predicate Open(sch: Schema, db: Db, all: bool, names: set<Name>, p: Pending) {
    !Selected(p, all, names) || !Passes(sch, db, p)
  }

  ghost function Unsettled(sch: Schema, db: Db, pending: seq<Pending>, all: bool, names: set<Name>): seq<Pending> {
    if pending == [] then []
    else
      var first := if Open(sch, db, all, names, pending[0]) then [pending[0]] else [];
      first + Unsettled(sch, db, pending[1..], all, names)
  }

  /** No open check stands behind a selected one that fails. */
  ghost predicate NothingBehind(sch: Schema, db: Db, pending: seq<Pending>, all: bool, names: set<Name>) {
    forall i, j :: 0 <= i < j < |pending| && Selected(pending[i], all, names) && !Passes(sch, db, pending[i]) ==>
      !Open(sch, db, all, names, pending[j])
  }

  lemma {:induction false} NoneUnsettled(sch: Schema, db: Db, pending: seq<Pending>, all: bool, names: set<Name>)
    ensures Unsettled(sch, db, pending, all, names) == [] <==>
      forall j :: 0 <= j < |pending| ==> !Open(sch, db, all, names, pending[j])
    decreases |pending|
  {
    hide Open;
    if pending != [] {
      NoneUnsettled(sch, db, pending[1..], all, names);
      forall j | 0 < j < |pending| ensures pending[j] == pending[1..][j - 1] {}
      assert pending == [pending[0]] + pending[1..];
    }
  }

  /** The tail is to be kept for a later run, but is dropped: every open check is still on the list if and
      only if none stands behind a failing one. */
  lemma {:induction false} LeftIff(sch: Schema, db: Db, pending: seq<Pending>, all: bool, names: set<Name>)
    ensures Left(sch, db, pending, all, names) == Unsettled(sch, db, pending, all, names) <==>
      NothingBehind(sch, db, pending, all, names)
    decreases |pending|
  {
    hide Passes;
    if pending != [] {
      var p, rest := pending[0], pending[1..];
      assert pending == [p] + rest;
      LeftIff(sch, db, rest, all, names);
      NoneUnsettled(sch, db, rest, all, names);
      BehindCons(sch, db, pending, all, names);
      var u := Unsettled(sch, db, rest, all, names);
      assert [p] == [p] + u <==> u == [] by { assert |[p] + u| == 1 + |u|; }
      assert [p] + Left(sch, db, rest, all, names) == [p] + u <==> Left(sch, db, rest, all, names) == u by {
        assert ([p] + u)[1..] == u && ([p] + Left(sch, db, rest, all, names))[1..] == Left(sch, db, rest, all, names);
      }
    }
  }

  lemma {:induction false} BehindCons(sch: Schema, db: Db, pending: seq<Pending>, all: bool, names: set<Name>)
    requires pending != []
    ensures NothingBehind(sch, db, pending, all, names) <==>
      && NothingBehind(sch, db, pending[1..], all, names)
      && (Selected(pending[0], all, names) && !Passes(sch, db, pending[0]) ==>
            forall j :: 0 <= j < |pending[1..]| ==> !Open(sch, db, all, names, pending[1..][j]))
  {
    hide Open, Passes, Selected;
    var rest := pending[1..];
    forall j | 0 <= j < |rest| ensures rest[j] == pending[j + 1] {}
    if NothingBehind(sch, db, pending, all, names) {
      forall i, j | 0 <= i < j < |rest| && Selected(rest[i], all, names) && !Passes(sch, db, rest[i])
        ensures !Open(sch, db, all, names, rest[j])
      {
        assert rest[i] == pending[i + 1] && rest[j] == pending[j + 1];
      }
    }
    if NothingBehind(sch, db, rest, all, names) {
      forall j | 0 < j < |pending| ensures pending[j] == rest[j - 1] {}
    }
  }

  lemma {:induction false} KeptWithin(pending: seq<Pending>, all: bool, names: set<Name>)
    ensures forall p :: p in Kept(pending, all, names) <==> p in pending && !Selected(p, all, names)
  {
    if pending != [] {
      KeptWithin(pending[..|pending| - 1], all, names);
      assert pending == pending[..|pending| - 1] + [pending[|pending| - 1]];
    }
  }

  lemma {:induction false} KeptAll(pending: seq<Pending>)
    ensures Kept(pending, true, {}) == []
  {
    if pending != [] {
      KeptAll(pending[..|pending| - 1]);
    }
  }

  lemma {:induction false} PassedIsNoOrphan(sch: Schema, db: Db, f: FK, id: RowId, vals: Tuple, p: Pending)
    requires SchemaOk(sch) && Orphan(sch, db, f, id, vals)
    requires Covered([p], f, vals)
    ensures !Passes(sch, db, p)
  {
    hide SchemaOk, ParentExists, Project;
    KeyShape(sch, f);
    assert PendingFor(f, p);
  }

  /** Dropping checks that passed keeps every orphan on the list. */
  lemma {:induction false} SettledCoverage(sch: Schema, db: Db, pending: seq<Pending>, all: bool, names: set<Name>)
    requires SchemaOk(sch) && OrphansCovered(sch, db, pending)
    requires forall i :: 0 <= i < |pending| && Selected(pending[i], all, names) ==> Passes(sch, db, pending[i])
    ensures OrphansCovered(sch, db, Kept(pending, all, names))
  {
    hide SchemaOk, Orphan, Passes, Kept;
    KeptWithin(pending, all, names);
    forall f, id, vals | Orphan(sch, db, f, id, vals) ensures Covered(Kept(pending, all, names), f, vals) {
      PassedIsNoOrphan(sch, db, f, id, vals, ChildCheck(f.name, f.child, f.parent, f.refs, vals));
      PassedIsNoOrphan(sch, db, f, id, vals, ParentCheck(f.name, f.child, f.parent, vals));
    }
  }

  // ---- Where the checks fall short ----

  const EMPLOYEES: Name := [101]
  const MANAGER_KEY: FK := FK([102], EMPLOYEES, EMPLOYEES, [2], [1], Block, false, false)
  const ONE_TABLE: Schema := Schema(map[EMPLOYEES := TableInfo(3, 0)], [MANAGER_KEY])

  /** One row (1, 'B', NULL) of a table whose third column references its second. Setting the second to 'C'
      and the third to 'B' passes both checks of an immediate key and leaves an orphan. */
  lemma {:induction false} SelfUpdateLeavesOrphan()
    ensures
      var id := RowId(EMPLOYEES, [65]);
      var db := map[id := [RC.Text([65]), RC.Text([66]), RC.Null]];
      var next := [RC.Text([65]), RC.Text([67]), RC.Text([66])];
      && SchemaOk(ONE_TABLE) && DbOk(ONE_TABLE, db) && NoOrphans(ONE_TABLE, db)
      && UpdateTarget(ONE_TABLE, id, next) == Some(id)
      && (forall f, vals :: ChildOf(ONE_TABLE, id.table, next, f, vals) ==> ParentExists(db, f.parent, f.refs, vals))
      && (forall f, r, vals :: !References(ONE_TABLE, db, id.table, db[id], f, r, vals))
      && Orphan(ONE_TABLE, db[id := next], MANAGER_KEY, id, [[66]])
  {
    var id := RowId(EMPLOYEES, [65]);
    var prior := [RC.Text([65]), RC.Text([66]), RC.Null];
    var db := map[id := prior];
    var next := [RC.Text([65]), RC.Text([67]), RC.Text([66])];
    var f := MANAGER_KEY;
    assert FkOk(ONE_TABLE, f);
    assert Project(prior, f.locals).None?;
    assert Project(prior, f.refs).value == [[66]];
    assert Project(next, f.locals).value == [[66]];
    assert Project(next, f.refs).value == [[67]];
    assert Matches(next, f, [[66]]);
    forall g, vals | ChildOf(ONE_TABLE, id.table, next, g, vals) ensures ParentExists(db, g.parent, g.refs, vals) {
      assert Provides(db[id], f, vals);
    }
  }

  const LATE_KEY: FK := FK([102], EMPLOYEES, EMPLOYEES, [2], [1], Block, true, true)
  const LATE: Schema := Schema(map[EMPLOYEES := TableInfo(3, 0)], [LATE_KEY])

  const MEMBER_1: RowId := RowId(EMPLOYEES, [49])
  const MEMBER_2: RowId := RowId(EMPLOYEES, [50])

  /** Two rows of the same table, under a deferred key, each naming a manager who does not exist. */
  const TEAM: Db := map[MEMBER_1 := Employee(49, 67, 65), MEMBER_2 := Employee(50, 68, 66)]

  function Employee(id: byte, code: byte, manager: byte): Cells {
    [RC.Text([id]), RC.Text([code]), RC.Text([manager])]
  }

  lemma {:induction false} EmployeeTuples(id: byte, code: byte, manager: byte)
    ensures var e := Employee(id, code, manager);
      Fits(e, [1]) && Fits(e, [2]) && Project(e, [1]) == Some([[code]]) && Project(e, [2]) == Some([[manager]])
  {
    var e := Employee(id, code, manager);
    assert Project(e, [1]).value == [[code]] && Project(e, [2]).value == [[manager]];
  }

  /** Both checks fail. After SET CONSTRAINTS ALL IMMEDIATE the second is on no list, although its row is
      still an orphan. */
  lemma {:induction false} SecondCheckForgotten()
    ensures
      var p := ChildCheck(LATE_KEY.name, EMPLOYEES, EMPLOYEES, [1], [[65]]);
      var q := ChildCheck(LATE_KEY.name, EMPLOYEES, EMPLOYEES, [1], [[66]]);
      && SchemaOk(LATE) && DbOk(LATE, TEAM) && AllPendingOk(LATE, [p, q]) && OrphansCovered(LATE, TEAM, [p, q])
      && !Passes(LATE, TEAM, p) && !Passes(LATE, TEAM, q)
      && Left(LATE, TEAM, [p, q], true, {}) == [p]
      && Orphan(LATE, TEAM, LATE_KEY, MEMBER_2, [[66]]) && !Covered([p], LATE_KEY, [[66]])
  {
    hide Project, Matches;
    var p := ChildCheck(LATE_KEY.name, EMPLOYEES, EMPLOYEES, [1], [[65]]);
    var q := ChildCheck(LATE_KEY.name, EMPLOYEES, EMPLOYEES, [1], [[66]]);
    EmployeeTuples(49, 67, 65);
    EmployeeTuples(50, 68, 66);
    assert FkOk(LATE, LATE_KEY) && PendingFor(LATE_KEY, p) && PendingFor(LATE_KEY, q);
    TeamUnmanaged([[65]]);
    TeamUnmanaged([[66]]);
    TeamMatches();
  }

  lemma {:induction false} TeamUnmanaged(vals: Tuple)
    requires vals == [[65]] || vals == [[66]]
    ensures !ParentExists(TEAM, EMPLOYEES, [1], vals)
  {
    hide Project;
    EmployeeTuples(49, 67, 65);
    EmployeeTuples(50, 68, 66);
  }

  lemma {:induction false} TeamMatches()
    ensures Matches(TEAM[MEMBER_1], LATE_KEY, [[65]]) && Matches(TEAM[MEMBER_2], LATE_KEY, [[66]])
    ensures forall f, id, vals :: Orphan(LATE, TEAM, f, id, vals) ==> f == LATE_KEY && vals in {[[65]], [[66]]}
  {
    hide Project;
    EmployeeTuples(49, 67, 65);
    EmployeeTuples(50, 68, 66);
  }

  const ORDERS: Name := [111]
  const ITEMS: Name := [105]
  const CODE_KEY: FK := FK([99], ITEMS, ORDERS, [1], [1], Block, false, false)
  const TWO_TABLES: Schema := Schema(map[ORDERS := TableInfo(2, 0), ITEMS := TableInfo(2, 0)], [CODE_KEY])

  const ORDER_1: RowId := RowId(ORDERS, [49])
  const ORDER_2: RowId := RowId(ORDERS, [50])
  const ITEM: RowId := RowId(ITEMS, [49])
  const SHOP: Db := map[ORDER_1 := Pair(49, 65), ORDER_2 := Pair(50, 66), ITEM := Pair(49, 66)]

  function Pair(a: byte, b: byte): Cells {
    [RC.Text([a]), RC.Text([b])]
  }

  lemma {:induction false} PairCode(a: byte, b: byte)
    ensures Fits(Pair(a, b), [1]) && Project(Pair(a, b), [1]) == Some([[b]])
  {
    assert Project(Pair(a, b), [1]).value == [[b]];
  }

  lemma {:induction false} ShopOk()
    ensures SchemaOk(TWO_TABLES) && DbOk(TWO_TABLES, SHOP)
  {
    assert FkOk(TWO_TABLES, CODE_KEY);
  }

  lemma {:induction false} ShopHasNoOrphans()
    ensures NoOrphans(TWO_TABLES, SHOP)
  {
    hide Project, Pair;
    PairCode(50, 66);
    PairCode(49, 66);
    assert ORDER_2 in SHOP && SHOP[ORDER_2] == Pair(50, 66);
    assert ParentExists(SHOP, ORDERS, [1], [[66]]);
  }

  lemma {:induction false} RekeyPasses()
    ensures UpdateOk(TWO_TABLES, {}, SHOP, ORDER_1, Pair(50, 65))
  {
    hide Project;
    PairCode(49, 65);
    PairCode(49, 66);
    assert forall f, vals :: !ChildOf(TWO_TABLES, ORDERS, Pair(50, 65), f, vals);
    assert forall f, r, vals :: !References(TWO_TABLES, SHOP, ORDERS, Pair(49, 65), f, r, vals);
  }

  lemma {:induction false} RekeyOrphansItem()
    ensures Orphan(TWO_TABLES, SHOP[ORDER_2 := Pair(50, 65)], CODE_KEY, ITEM, [[66]])
  {
    hide Project, Pair;
    var d := SHOP[ORDER_2 := Pair(50, 65)];
    PairCode(49, 65);
    PairCode(50, 65);
    PairCode(49, 66);
    assert d[ITEM] == Pair(49, 66) && d[ORDER_1] == Pair(49, 65) && d[ORDER_2] == Pair(50, 65);
  }

  /** Orders (1, 'A') and (2, 'B') and an item that references 'B'. Giving order 1 the key 2 passes both checks of
      an immediate key, overwrites order 2, leaves order 1 where it was, and orphans the item. */
  lemma {:induction false} RekeyOverwritesParent()
    ensures SchemaOk(TWO_TABLES) && DbOk(TWO_TABLES, SHOP) && NoOrphans(TWO_TABLES, SHOP)
    ensures UpdateOk(TWO_TABLES, {}, SHOP, ORDER_1, Pair(50, 65))
    ensures UpdateTarget(TWO_TABLES, ORDER_1, Pair(50, 65)) == Some(ORDER_2)
    ensures var after := SHOP[ORDER_2 := Pair(50, 65)];
      ORDER_1 in after && Orphan(TWO_TABLES, after, CODE_KEY, ITEM, [[66]])
  {
    hide SchemaOk, DbOk, Orphan, UpdateOk;
    ShopOk();
    ShopHasNoOrphans();
    RekeyPasses();
    RekeyOrphansItem();
  }

  // ---- What COMMIT refuses ----

  /** A child check whose tuple no row offers and no row references any more. */
  ghost predicate Stale(sch: Schema, db: Db, p: Pending) {
    && p.ChildCheck? && !ParentExists(db, p.parent, p.refs, p.vals)
    && forall f, id :: f in sch.fks && PendingFor(f, p) && id in db && id.table == f.child ==>
         !Matches(db[id], f, p.vals)
  }

  ghost predicate NoneStale(sch: Schema, s: State) {
    forall p :: p in s.pending ==> !Stale(sch, s.db, p)
  }

  /** COMMIT goes through if and only if there is no orphan and no stale check. */
  lemma {:induction false} CommitIff(sch: Schema, s: State)
    requires SchemaOk(sch) && AllPendingOk(sch, s.pending) && OrphansCovered(sch, s.db, s.pending)
    ensures AllPass(sch, s) <==> NoOrphans(sch, s.db) && NoneStale(sch, s)
  {
    hide SchemaOk, Matches, ParentExists, Covered, Passes;
    if AllPass(sch, s) {
      forall f, id, vals ensures !Orphan(sch, s.db, f, id, vals) {
        if Orphan(sch, s.db, f, id, vals) { CoveredOrphanFails(sch, s, f, id, vals); }
      }
      forall p | p in s.pending ensures !Stale(sch, s.db, p) { StaleFails(sch, s.db, p); }
    }
    if NoOrphans(sch, s.db) {
      forall p | p in s.pending && !Stale(sch, s.db, p) ensures Passes(sch, s.db, p) {
        FreshPasses(sch, s.db, p);
      }
    }
  }

  lemma {:induction false} StaleFails(sch: Schema, db: Db, p: Pending)
    ensures Stale(sch, db, p) ==> !Passes(sch, db, p)
  {
    hide Matches, ParentExists;
  }

  lemma {:induction false} FreshPasses(sch: Schema, db: Db, p: Pending)
    requires PendingOk(sch, p) && NoOrphans(sch, db) && !Stale(sch, db, p)
    ensures Passes(sch, db, p)
  {
    hide Matches, ParentExists;
    if p.ChildCheck? && !ParentExists(db, p.parent, p.refs, p.vals) {
      var f, id :| f in sch.fks && PendingFor(f, p) && id in db && id.table == f.child && Matches(db[id], f, p.vals);
      OrphanNow(sch, db, f, id, p.vals);
    }
  }

  lemma {:induction false} OrphanNow(sch: Schema, db: Db, f: FK, id: RowId, vals: Tuple)
    requires f in sch.fks && id in db && id.table == f.child && Matches(db[id], f, vals) && NoOrphans(sch, db)
    ensures ParentExists(db, f.parent, f.refs, vals)
  {
    hide Matches, ParentExists;
    assert !Orphan(sch, db, f, id, vals);
  }

  lemma {:induction false} CoveredOrphanFails(sch: Schema, s: State, f: FK, id: RowId, vals: Tuple)
    requires SchemaOk(sch) && OrphansCovered(sch, s.db, s.pending) && Orphan(sch, s.db, f, id, vals)
    ensures !AllPass(sch, s)
  {
    hide SchemaOk, Passes, Orphan;
    var c := if ChildRecord(f, vals) in s.pending then ChildRecord(f, vals) else ParentRecord(f, vals);
    PassedIsNoOrphan(sch, s.db, f, id, vals, c);
  }

  predicate AnyRow(cells: Cells) {
    true
  }

  const NEW_ROW: Op := Insert(EMPLOYEES, [], Employee(49, 67, 65))
  const NEW_CHECK: Pending := ChildCheck(LATE_KEY.name, EMPLOYEES, EMPLOYEES, [1], [[65]])

  /** A row with a deferred reference is inserted and deleted again: no orphan, and yet COMMIT fails. */
  lemma {:induction false} DeletedRowBlocksCommit()
    ensures
      var s0, s2 := State(map[], [], {LATE_KEY}), State(map[], [NEW_CHECK], {LATE_KEY});
      var s1 := State(map[MEMBER_1 := Employee(49, 67, 65)], [NEW_CHECK], {LATE_KEY});
      && Does(LATE, true, NEW_ROW, s0, s1) && Does(LATE, true, Delete(EMPLOYEES, AnyRow), s1, s2)
      && NoOrphans(LATE, s2.db) && Stale(LATE, s2.db, NEW_CHECK) && !AllPass(LATE, s2)
  {
    hide Does, Passes, Orphan;
    var s0, s2 := State(map[], [], {LATE_KEY}), State(map[], [NEW_CHECK], {LATE_KEY});
    var s1 := State(map[MEMBER_1 := Employee(49, 67, 65)], [NEW_CHECK], {LATE_KEY});
    NewRowInserted(s0, s1);
    NewRowDeleted(s1, s2);
    StaleFails(LATE, s2.db, NEW_CHECK);
    NoRowsNoOrphans(LATE, s2.db);
    assert NEW_CHECK in s2.pending;
  }

  lemma {:induction false} NoRowsNoOrphans(sch: Schema, db: Db)
    requires forall id :: id !in db
    ensures NoOrphans(sch, db)
  {
  }

  lemma {:induction false} NewRowInserted(s0: State, s1: State)
    requires s0 == State(map[], [], {LATE_KEY})
    requires s1 == State(map[MEMBER_1 := Employee(49, 67, 65)], [NEW_CHECK], {LATE_KEY})
    ensures Does(LATE, true, NEW_ROW, s0, s1)
  {
    hide Project, ParentExists;
    EmployeeTuples(49, 67, 65);
    var e := Employee(49, 67, 65);
    assert ChildOf(LATE, EMPLOYEES, e, LATE_KEY, [[65]]);
    forall c ensures c in s1.pending <==> ChildAdds(LATE, {LATE_KEY}, EMPLOYEES, e, c) {}
    assert s1.db == s0.db[MEMBER_1 := e];
  }

  lemma {:induction false} NewRowDeleted(s1: State, s2: State)
    requires s1 == State(map[MEMBER_1 := Employee(49, 67, 65)], [NEW_CHECK], {LATE_KEY})
    requires s2 == State(map[], [NEW_CHECK], {LATE_KEY})
    ensures Does(LATE, true, Delete(EMPLOYEES, AnyRow), s1, s2)
  {
    hide Project, Matches, ParentExists;
    var roots := Targets(s1.db, EMPLOYEES, AnyRow);
    assert roots == {MEMBER_1};
    assert RemovedAcyclic(LATE, s1.db, s2.db) by { NoCascadeNoCycle(LATE, s1.db, s2.db); }
  }

  lemma {:induction false} NoCascadeNoCycle(sch: Schema, a: Db, b: Db)
    requires forall f :: f in sch.fks ==> f.onDelete != Cascade
    ensures RemovedAcyclic(sch, a, b)
  {
    hide Matches, Project;
    forall rows: set<RowId> | rows != {} && RemovedSet(a, b, rows) ensures HasSink(sch, a, rows) {
      var x :| x in rows;
      assert IsSink(sch, a, rows, x);
    }
  }

  // ---- SET NULL of a column that is itself referenced ----

  lemma {:induction false} NulledMatchesBack(cells: Cells, cols: seq<nat>, f: FK, vals: Tuple)
    requires Matches(Nulled(cells, cols), f, vals)
    ensures Matches(cells, f, vals)
  {
    var next := Nulled(cells, cols);
    forall i | 0 <= i < |f.locals| ensures next[f.locals[i]] == cells[f.locals[i]] {
      assert next[f.locals[i]].Text?;
    }
    assert Project(cells, f.locals).Some?;
    assert Project(cells, f.locals).value == vals;
  }

  /** The action checks no key that references the column. In any schema it leaves every orphan on the list if and
      only if no row references a tuple that only the nulled row offered. */
  lemma {:induction false} SetNullCoverage(sch: Schema, db: Db, pending: seq<Pending>, id: RowId, cols: seq<nat>)
    requires id in db && OrphansCovered(sch, db, pending)
    ensures OrphansCovered(sch, db[id := Nulled(db[id], cols)], pending) <==>
      LostCovered(sch, db, pending, id, Nulled(db[id], cols))
  {
    hide Matches, Covered, Nulled, LostCovered, ParentExists;
    var next := Nulled(db[id], cols);
    forall f, vals | ChildOf(sch, id.table, next, f, vals)
      ensures Covered(pending, f, vals) || ParentExists(db, f.parent, f.refs, vals)
    {
      NulledMatchesBack(db[id], cols, f, vals);
      assert Orphan(sch, db, f, id, vals) || ParentExists(db, f.parent, f.refs, vals);
    }
    RekeyCoverage(sch, db, pending, pending, id, next);
  }

  /** Where no key references a nulled column nothing is lost: the reason `SchemaOk` asks for it. */
  lemma {:induction false} UnreferencedNullsLoseNothing(sch: Schema, db: Db, id: RowId, cols: seq<nat>)
    requires id in db && forall f, c :: f in sch.fks && f.parent == id.table && c in f.refs ==> c !in cols
    ensures forall f, r, vals :: !Lost(sch, db, id, Nulled(db[id], cols), f, r, vals)
  {
    hide Matches;
    forall f, r, vals ensures !Lost(sch, db, id, Nulled(db[id], cols), f, r, vals) {
      if f in sch.fks && f.parent == id.table && Provides(db[id], f, vals) {
        NulledProvides(db[id], cols, f, vals);
      }
    }
  }

  lemma {:induction false} NulledProvides(cells: Cells, cols: seq<nat>, f: FK, vals: Tuple)
    requires Provides(cells, f, vals) && forall c :: c in f.refs ==> c !in cols
    ensures Provides(Nulled(cells, cols), f, vals)
  {
    var next := Nulled(cells, cols);
    forall i | 0 <= i < |f.refs| ensures next[f.refs[i]] == cells[f.refs[i]] {
      assert f.refs[i] in f.refs;
    }
    assert Project(next, f.refs).Some?;
    assert Project(next, f.refs).value == vals;
  }

  const LINES: Name := [108]
  const ITEM_KEY: FK := FK([97], ITEMS, ORDERS, [1], [1], SetNull, false, false)
  const LINE_KEY: FK := FK([99], LINES, ITEMS, [1], [1], Block, false, false)
  const CHAIN: Schema :=
    Schema(map[ORDERS := TableInfo(2, 0), ITEMS := TableInfo(2, 0), LINES := TableInfo(2, 0)], [ITEM_KEY, LINE_KEY])

  const LINE: RowId := RowId(LINES, [49])
  const CHAINED: Db := map[ORDER_1 := Pair(49, 65), ITEM := Pair(49, 65), LINE := Pair(49, 65)]

  lemma {:induction false} ChainedOk()
    ensures FkOk(CHAIN, ITEM_KEY) && FkOk(CHAIN, LINE_KEY) && DbOk(CHAIN, CHAINED) && NoOrphans(CHAIN, CHAINED)
    ensures Matches(CHAINED[ITEM], ITEM_KEY, [[65]]) && Matches(CHAINED[LINE], LINE_KEY, [[65]])
    ensures Provides(CHAINED[ORDER_1], ITEM_KEY, [[65]]) && Provides(CHAINED[ITEM], LINE_KEY, [[65]])
  {
    hide Project, Pair;
    PairCode(49, 65);
    assert Provides(CHAINED[ORDER_1], ITEM_KEY, [[65]]) && Provides(CHAINED[ITEM], LINE_KEY, [[65]]);
    assert DbOk(CHAIN, CHAINED) by { PairWidth(49, 65); }
  }

  lemma {:induction false} PairWidth(a: byte, b: byte)
    ensures |Pair(a, b)| == 2
  {
  }

  /** An order 'A', an item that references it ON DELETE SET NULL, and a line that references the item's column.
      Deleting the order nulls the item's column and orphans the line, with nothing on the list. */
  lemma {:induction false} SetNullOrphansLine()
    ensures FkOk(CHAIN, ITEM_KEY) && FkOk(CHAIN, LINE_KEY) && DbOk(CHAIN, CHAINED) && NoOrphans(CHAIN, CHAINED)
    ensures Matches(CHAINED[ITEM], ITEM_KEY, [[65]]) && Provides(CHAINED[ORDER_1], ITEM_KEY, [[65]])
    ensures Lost(CHAIN, CHAINED, ITEM, Nulled(CHAINED[ITEM], ITEM_KEY.locals), LINE_KEY, LINE, [[65]])
    ensures Orphan(CHAIN, CHAINED[ITEM := Nulled(CHAINED[ITEM], ITEM_KEY.locals)] - {ORDER_1}, LINE_KEY, LINE, [[65]])
  {
    hide Project, DbOk, NoOrphans, FkOk, Matches, Pair;
    ChainedOk();
    NulledPair(49, 65);
  }

  lemma {:induction false} NulledPair(a: byte, b: byte)
    ensures var next := Nulled(Pair(a, b), [1]); Fits(next, [1]) && Project(next, [1]) == None
  {
  }
}
