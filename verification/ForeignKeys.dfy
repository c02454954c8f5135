/** Foreign keys (engine/internal/executor/constraints.go): the tables, what it means for a row to
    reference another, and how far a recursive ON DELETE may change the database. MATCH SIMPLE
    throughout (section 11.8 of ISO/IEC 9075-2): a tuple with a NULL references nothing. */
module ForeignKeys {
  import opened Bytes
  import RC = RowCodec

  type Name = Bytes
  type Cells = seq<RC.Datum>
  type Tuple = seq<Bytes>

  /** RESTRICT, NO ACTION and SET DEFAULT all block; "" means NO ACTION. */
  datatype Action = Cascade | SetNull | Block

  datatype FK = FK(name: Name, child: Name, parent: Name, locals: seq<nat>, refs: seq<nat>,
                   onDelete: Action, deferrable: bool, initiallyDeferred: bool)

  datatype TableInfo = TableInfo(ncols: nat, pk: nat)

  /** `fks` in the order the catalog lists tables and their foreign keys. */
  datatype Schema = Schema(tables: map<Name, TableInfo>, fks: seq<FK>)

  /** A row's table and row key. */
  datatype RowId = RowId(table: Name, key: Bytes)

  /** A transaction's view of all tables. */
  type Db = map<RowId, Cells>

  ghost predicate FkOk(sch: Schema, f: FK) {
    && f.child in sch.tables && f.parent in sch.tables && |f.locals| == |f.refs| && f.locals != []
    && (forall i :: 0 <= i < |f.locals| ==> f.locals[i] < sch.tables[f.child].ncols)
    && (forall i :: 0 <= i < |f.refs| ==> f.refs[i] < sch.tables[f.parent].ncols)
  }

  /** Columns an ON DELETE SET NULL may write. */
  predicate Nullable(sch: Schema, table: Name, col: nat) {
    exists i :: 0 <= i < |sch.fks| && sch.fks[i].onDelete == SetNull && sch.fks[i].child == table &&
      col in sch.fks[i].locals
  }

  /** Keys are well formed, named uniquely per child table, and no SET NULL column is itself referenced. */
  ghost predicate SchemaOk(sch: Schema) {
    && (forall f :: f in sch.fks ==> FkOk(sch, f))
    && (forall i, j :: 0 <= i < j < |sch.fks| && sch.fks[i].child == sch.fks[j].child ==>
        sch.fks[i].name != sch.fks[j].name)
    && (forall f, c :: f in sch.fks && c in f.refs ==> !Nullable(sch, f.parent, c))
  }

  /** Rows have their table's width, and a referenced primary key column holds the row's key. */
  ghost predicate DbOk(sch: Schema, db: Db) {
    forall id :: id in db ==>
      && id.table in sch.tables && |db[id]| == sch.tables[id.table].ncols
      && (forall f :: f in sch.fks && f.parent == id.table && sch.tables[id.table].pk in f.refs ==>
            sch.tables[id.table].pk < |db[id]| && db[id][sch.tables[id.table].pk] == RC.Text(id.key))
  }

  // ---- Tuples ----

  /** The texts of some columns; None when one is NULL. */
  function Project(cells: Cells, cols: seq<nat>): (r: Option<Tuple>)
    requires Fits(cells, cols)
    ensures r.Some? <==> forall i :: 0 <= i < |cols| ==> cells[cols[i]].Text?
    ensures r.Some? ==> |r.value| == |cols| && forall i :: 0 <= i < |cols| ==> cells[cols[i]] == RC.Text(r.value[i])
    decreases |cols|
  {
    if cols == [] then Some([])
    else if cells[cols[0]].Null? then None
    else match Project(cells, cols[1..])
      case None => assert exists i :: 0 <= i < |cols[1..]| && cells[cols[1..][i]].Null?;
        var i :| 0 <= i < |cols[1..]| && cells[cols[1..][i]].Null?; assert cells[cols[i + 1]].Null?; None
      case Some(t) => Some([cells[cols[0]].text] + t)
  }

  predicate Fits(cells: Cells, cols: seq<nat>) {
    forall i :: 0 <= i < |cols| ==> cols[i] < |cells|
  }

  /** `childTupleMatches`: the row's foreign-key columns equal the tuple. */
  predicate Matches(cells: Cells, f: FK, vals: Tuple) {
    Fits(cells, f.locals) && Project(cells, f.locals) == Some(vals)
  }

  ghost predicate ParentExists(db: Db, parent: Name, refs: seq<nat>, vals: Tuple) {
    exists id :: id in db && id.table == parent && Fits(db[id], refs) && Project(db[id], refs) == Some(vals)
  }

  /** Child row `id` references a tuple no parent row has. */
  ghost predicate Orphan(sch: Schema, db: Db, f: FK, id: RowId, vals: Tuple) {
    && f in sch.fks && id in db && id.table == f.child && Matches(db[id], f, vals)
    && !ParentExists(db, f.parent, f.refs, vals)
  }

  ghost predicate NoOrphans(sch: Schema, db: Db) {
    forall f, id, vals :: !Orphan(sch, db, f, id, vals)
  }

  // ---- Deferred checks ----

  /** Re-run at COMMIT or SET CONSTRAINTS IMMEDIATE. */
  datatype Pending =
    | ChildCheck(constraint: Name, child: Name, parent: Name, refs: seq<nat>, vals: Tuple)
    | ParentCheck(constraint: Name, child: Name, parent: Name, vals: Tuple)

  /** A pending check of this constraint on these values. */
  ghost predicate Covered(pending: seq<Pending>, f: FK, vals: Tuple) {
    || ChildCheck(f.name, f.child, f.parent, f.refs, vals) in pending
    || ParentCheck(f.name, f.child, f.parent, vals) in pending
  }

  /** The transaction invariant: whatever is orphaned is on the list. */
  ghost predicate OrphansCovered(sch: Schema, db: Db, pending: seq<Pending>) {
    forall f, id, vals :: Orphan(sch, db, f, id, vals) ==> Covered(pending, f, vals)
  }

  // ---- How a delete may change the database ----

  /** Some columns of SET NULL keys have become NULL; nothing else has changed. */
  ghost predicate NullsOnly(sch: Schema, table: Name, a: Cells, b: Cells) {
    && |a| == |b|
    && forall c :: 0 <= c < |a| ==> b[c] == a[c] || (b[c] == RC.Null && Nullable(sch, table, c))
  }

  /** Rows are only removed or nulled. */
  ghost predicate Shrinks(sch: Schema, a: Db, b: Db) {
    && (forall id :: id in b ==> id in a)
    && (forall id :: id in b ==> NullsOnly(sch, id.table, a[id], b[id]))
  }

  /** No child row still references `cells` as a row of `table`, except under a deferred check. */
  ghost predicate Handled(sch: Schema, db: Db, pending: seq<Pending>, table: Name, cells: Cells) {
    forall f, id, vals ::
      f in sch.fks && f.parent == table && Fits(cells, f.refs) && Project(cells, f.refs) == Some(vals) &&
      id in db && id.table == f.child && Matches(db[id], f, vals) ==>
      f.onDelete == Block && Covered(pending, f, vals)
  }

  /** Every removed row's references were dealt with. */
  ghost predicate RemovedHandled(sch: Schema, a: Db, b: Db, pending: seq<Pending>) {
    forall id :: id in a && id !in b ==> Handled(sch, b, pending, id.table, a[id])
  }

  lemma {:induction false} ProjectNulls(sch: Schema, table: Name, a: Cells, b: Cells, cols: seq<nat>)
    requires NullsOnly(sch, table, a, b) && Fits(a, cols)
    ensures Fits(b, cols)
    ensures Project(b, cols).Some? ==> Project(a, cols) == Project(b, cols)
    ensures (forall i :: 0 <= i < |cols| ==> !Nullable(sch, table, cols[i])) ==> Project(a, cols) == Project(b, cols)
  {
    forall i | 0 <= i < |cols| ensures b[cols[i]] == a[cols[i]] || b[cols[i]] == RC.Null {
      assert cols[i] < |a|;
    }
    if Project(b, cols).Some? && Project(a, cols).Some? {
      assert forall i :: 0 <= i < |cols| ==> RC.Text(Project(a, cols).value[i]) == RC.Text(Project(b, cols).value[i]);
      assert Project(a, cols).value == Project(b, cols).value;
    }
    if (forall i :: 0 <= i < |cols| ==> !Nullable(sch, table, cols[i])) {
      assert forall i :: 0 <= i < |cols| ==> b[cols[i]] == a[cols[i]];
      if Project(a, cols).Some? {
        assert Project(b, cols).Some?;
        assert forall i :: 0 <= i < |cols| ==> RC.Text(Project(a, cols).value[i]) == RC.Text(Project(b, cols).value[i]);
        assert Project(a, cols).value == Project(b, cols).value;
      }
    }
  }

  /** Nulling never changes what a row offers to its children. */
  lemma {:induction false} RefTupleStable(sch: Schema, f: FK, a: Cells, b: Cells)
    requires SchemaOk(sch) && f in sch.fks && NullsOnly(sch, f.parent, a, b) && Fits(a, f.refs)
    ensures Fits(b, f.refs) && Project(b, f.refs) == Project(a, f.refs)
  {
    hide Project, Nullable;
    ProjectNulls(sch, f.parent, a, b, f.refs);
  }

  /** Nulling never creates a match. */
  lemma {:induction false} MatchesBack(sch: Schema, f: FK, a: Cells, b: Cells, vals: Tuple)
    requires NullsOnly(sch, f.child, a, b) && Matches(b, f, vals)
    ensures Matches(a, f, vals)
  {
    hide Project, Nullable;
    ProjectNulls(sch, f.child, a, b, f.locals);
  }

  lemma {:induction false} ShrinksTransitive(sch: Schema, a: Db, b: Db, c: Db)
    requires Shrinks(sch, a, b) && Shrinks(sch, b, c)
    ensures Shrinks(sch, a, c)
  {
    hide Nullable;
    forall id | id in c ensures NullsOnly(sch, id.table, a[id], c[id]) {
      assert NullsOnly(sch, id.table, b[id], c[id]) && NullsOnly(sch, id.table, a[id], b[id]);
    }
  }

  lemma {:induction false} ShrinksDbOk(sch: Schema, a: Db, b: Db)
    requires SchemaOk(sch) && DbOk(sch, a) && Shrinks(sch, a, b)
    ensures DbOk(sch, b)
  {
    hide Nullable;
    forall id | id in b
      ensures id.table in sch.tables && |b[id]| == sch.tables[id.table].ncols
      ensures forall f :: f in sch.fks && f.parent == id.table && sch.tables[id.table].pk in f.refs ==>
            sch.tables[id.table].pk < |b[id]| && b[id][sch.tables[id.table].pk] == RC.Text(id.key)
    {
      assert NullsOnly(sch, id.table, a[id], b[id]);
    }
  }

  lemma {:induction false} HandledShrinks(sch: Schema, a: Db, b: Db, pa: seq<Pending>, pb: seq<Pending>, table: Name,
                                          cells: Cells)
    requires Handled(sch, a, pa, table, cells) && Shrinks(sch, a, b) && pa <= pb
    ensures Handled(sch, b, pb, table, cells)
  {
    hide Project, Nullable, Fits;
    forall f, id, vals |
      f in sch.fks && f.parent == table && Fits(cells, f.refs) && Project(cells, f.refs) == Some(vals) &&
      id in b && id.table == f.child && Matches(b[id], f, vals)
      ensures f.onDelete == Block && Covered(pb, f, vals)
    {
      MatchesBack(sch, f, a[id], b[id], vals);
      assert forall p :: p in pa ==> p in pb;
    }
  }

  /** What was handled for a row stays handled for the row it became by nulling, and back. */
  lemma {:induction false} HandledSameRefs(sch: Schema, db: Db, p: seq<Pending>, table: Name, a: Cells, b: Cells)
    requires SchemaOk(sch) && table in sch.tables && |a| == sch.tables[table].ncols && NullsOnly(sch, table, a, b)
    requires Handled(sch, db, p, table, b)
    ensures Handled(sch, db, p, table, a)
  {
    hide Project, Nullable;
    forall f, id, vals |
      f in sch.fks && f.parent == table && Fits(a, f.refs) && Project(a, f.refs) == Some(vals) &&
      id in db && id.table == f.child && Matches(db[id], f, vals)
      ensures f.onDelete == Block && Covered(p, f, vals)
    {
      RefTupleStable(sch, f, a, b);
    }
  }

  lemma {:induction false} RemovedHandledTransitive(sch: Schema, a: Db, b: Db, c: Db, pb: seq<Pending>,
                                                    pc: seq<Pending>)
    requires SchemaOk(sch) && DbOk(sch, a) && Shrinks(sch, a, b) && Shrinks(sch, b, c) && pb <= pc
    requires RemovedHandled(sch, a, b, pb) && RemovedHandled(sch, b, c, pc)
    ensures RemovedHandled(sch, a, c, pc)
  {
    hide Handled, Nullable;
    forall id | id in a && id !in c ensures Handled(sch, c, pc, id.table, a[id]) {
      if id in b {
        HandledSameRefs(sch, c, pc, id.table, a[id], b[id]);
      } else {
        HandledShrinks(sch, b, c, pb, pc, id.table, a[id]);
      }
    }
  }

  /** Deleting rows whose references were all dealt with leaves no orphan off the list. */
  lemma {:induction false} DeleteKeepsCoverage(sch: Schema, a: Db, b: Db, pa: seq<Pending>, pb: seq<Pending>)
    requires SchemaOk(sch) && DbOk(sch, a) && Shrinks(sch, a, b) && RemovedHandled(sch, a, b, pb) && pa <= pb
    requires OrphansCovered(sch, a, pa)
    ensures OrphansCovered(sch, b, pb)
  {
    hide Project, Nullable, Fits;
    forall f, id, vals | Orphan(sch, b, f, id, vals) ensures Covered(pb, f, vals) {
      MatchesBack(sch, f, a[id], b[id], vals);
      if ParentExists(a, f.parent, f.refs, vals) {
        var p :| p in a && p.table == f.parent && Fits(a[p], f.refs) && Project(a[p], f.refs) == Some(vals);
        if p in b {
          RefTupleStable(sch, f, a[p], b[p]);
        } else {
          assert Handled(sch, b, pb, p.table, a[p]);
        }
      } else {
        assert Orphan(sch, a, f, id, vals);
        assert forall q :: q in pa ==> q in pb;
      }
    }
  }

  // ---- What a cascade may remove and null ----

  /** Row `id` references `cells`, as a row of `table`, through a CASCADE key. */
  ghost predicate CascadeStep(sch: Schema, db: Db, table: Name, cells: Cells, id: RowId) {
    exists f, vals :: f in sch.fks && f.onDelete == Cascade && f.parent == table && Fits(cells, f.refs) &&
      Project(cells, f.refs) == Some(vals) && id in db && id.table == f.child && Matches(db[id], f, vals)
  }

  /** A chain of CASCADE references from `cells` down to the last row of the path. */
  ghost predicate CascadePath(sch: Schema, db: Db, table: Name, cells: Cells, path: seq<RowId>)
    decreases |path|
  {
    && path != [] && CascadeStep(sch, db, table, cells, path[0])
    && (|path| > 1 ==> path[0] in db && CascadePath(sch, db, path[0].table, db[path[0]], path[1..]))
  }

  ghost predicate Reaches(sch: Schema, db: Db, table: Name, cells: Cells, id: RowId) {
    exists path :: CascadePath(sch, db, table, cells, path) && path[|path| - 1] == id
  }

  ghost predicate RemovedReachable(sch: Schema, a: Db, b: Db, table: Name, cells: Cells) {
    forall id :: id in a && id !in b ==> Reaches(sch, a, table, cells, id)
  }

  /** The tuple belonged to the deleted row or to a row the delete removed. */
  ghost predicate Gone(sch: Schema, a: Db, b: Db, table: Name, cells: Cells, f: FK, vals: Tuple) {
    || (f.parent == table && Fits(cells, f.refs) && Project(cells, f.refs) == Some(vals))
    || (exists r :: r in a && r !in b && r.table == f.parent && Fits(a[r], f.refs) &&
          Project(a[r], f.refs) == Some(vals))
  }

  /** Column `c` of the row was nulled by a SET NULL key that referenced something now gone. */
  ghost predicate NullJustified(sch: Schema, a: Db, b: Db, table: Name, cells: Cells, id: RowId, c: nat)
    requires id in a
  {
    exists f, vals :: f in sch.fks && f.onDelete == SetNull && f.child == id.table && c in f.locals &&
      Matches(a[id], f, vals) && Gone(sch, a, b, table, cells, f, vals)
  }

  ghost predicate NullsJustified(sch: Schema, a: Db, b: Db, table: Name, cells: Cells) {
    forall id, c :: id in b && id in a && 0 <= c < |a[id]| && c < |b[id]| && b[id][c] != a[id][c] ==>
      NullJustified(sch, a, b, table, cells, id, c)
  }

  /** No SET NULL key shares a column with a CASCADE key. */
  ghost predicate CascadeColumnsApart(sch: Schema) {
    forall f, c :: f in sch.fks && f.onDelete == Cascade && c in f.locals ==> !Nullable(sch, f.child, c)
  }

  /** No row of the set references `x` through a CASCADE key. */
  ghost predicate IsSink(sch: Schema, a: Db, rows: set<RowId>, x: RowId) {
    x in rows && x in a && forall y :: y in rows ==> !CascadeStep(sch, a, x.table, a[x], y)
  }

  ghost predicate HasSink(sch: Schema, a: Db, rows: set<RowId>) {
    exists x :: IsSink(sch, a, rows, x)
  }

  /** The removed rows have no cycle of CASCADE references among them. */
  ghost predicate RemovedAcyclic(sch: Schema, a: Db, b: Db) {
    forall rows: set<RowId> :: rows != {} && RemovedSet(a, b, rows) ==> HasSink(sch, a, rows)
  }

  ghost predicate RemovedSet(a: Db, b: Db, rows: set<RowId>) {
    forall x :: x in rows ==> x in a && x !in b
  }

  /** Everything the ON DELETE actions for one row may have done to the database so far. */
  ghost predicate Effect(sch: Schema, a: Db, b: Db, pending: seq<Pending>, table: Name, cells: Cells) {
    && Shrinks(sch, a, b) && RemovedHandled(sch, a, b, pending)
    && RemovedReachable(sch, a, b, table, cells) && NullsJustified(sch, a, b, table, cells)
    && (CascadeColumnsApart(sch) ==> RemovedAcyclic(sch, a, b))
  }

  lemma {:induction false} EffectIdle(sch: Schema, a: Db, pending: seq<Pending>, table: Name, cells: Cells)
    ensures Effect(sch, a, a, pending, table, cells)
  {
    AcyclicIdle(sch, a, a);
  }

  lemma {:induction false} AcyclicIdle(sch: Schema, a: Db, b: Db)
    requires forall x :: x in a ==> x in b
    ensures RemovedAcyclic(sch, a, b)
  {
    forall rows: set<RowId> | rows != {} ensures !RemovedSet(a, b, rows) {
      var x :| x in rows;
    }
  }

  lemma {:induction false} AcyclicSameKeys(sch: Schema, a: Db, b: Db, d: Db)
    requires RemovedAcyclic(sch, a, b) && forall x :: x in b ==> x in d
    ensures RemovedAcyclic(sch, a, d)
  {
    hide HasSink;
    forall rows: set<RowId> | rows != {} && RemovedSet(a, d, rows) ensures HasSink(sch, a, rows) {
      assert RemovedSet(a, b, rows);
    }
  }

  lemma {:induction false} EffectPending(sch: Schema, a: Db, b: Db, p: seq<Pending>, q: seq<Pending>, table: Name,
                                         cells: Cells)
    requires Effect(sch, a, b, p, table, cells) && p <= q
    ensures Effect(sch, a, b, q, table, cells)
  {
    hide Handled, Nullable, NullsOnly, NullJustified, Reaches, RemovedAcyclic, CascadeColumnsApart;
    forall id | id in a && id !in b ensures Handled(sch, b, q, id.table, a[id]) {
      ShrinksSelf(sch, b);
      HandledShrinks(sch, b, b, p, q, id.table, a[id]);
    }
  }

  lemma {:induction false} ShrinksSelf(sch: Schema, b: Db)
    ensures Shrinks(sch, b, b)
  {
  }

  /** The same references exist in the larger database, from the row before nulling. */
  lemma {:induction false} StepBack(sch: Schema, a: Db, b: Db, table: Name, x: Cells, y: Cells, id: RowId)
    requires SchemaOk(sch) && Shrinks(sch, a, b) && table in sch.tables && |x| == sch.tables[table].ncols
    requires NullsOnly(sch, table, x, y) && CascadeStep(sch, b, table, y, id)
    ensures CascadeStep(sch, a, table, x, id)
  {
    hide Project, Nullable;
    var f, vals :| f in sch.fks && f.onDelete == Cascade && f.parent == table && Fits(y, f.refs) &&
      Project(y, f.refs) == Some(vals) && id in b && id.table == f.child && Matches(b[id], f, vals);
    assert FkOk(sch, f);
    RefTupleStable(sch, f, x, y);
    MatchesBack(sch, f, a[id], b[id], vals);
  }

  lemma {:induction false} PathBack(sch: Schema, a: Db, b: Db, table: Name, x: Cells, y: Cells, path: seq<RowId>)
    requires SchemaOk(sch) && DbOk(sch, a) && Shrinks(sch, a, b) && table in sch.tables
    requires |x| == sch.tables[table].ncols
    requires NullsOnly(sch, table, x, y) && CascadePath(sch, b, table, y, path)
    ensures CascadePath(sch, a, table, x, path)
    decreases |path|
  {
    hide CascadeStep, Nullable, NullsOnly;
    StepBack(sch, a, b, table, x, y, path[0]);
    if |path| > 1 {
      PathBack(sch, a, b, path[0].table, a[path[0]], b[path[0]], path[1..]);
    }
  }

  /** What the cascade reached from a child, it reached from the parent through the child. */
  lemma {:induction false} ReachThrough(sch: Schema, a: Db, b: Db, table: Name, cells: Cells, mid: RowId, y: Cells,
                                        id: RowId)
    requires SchemaOk(sch) && DbOk(sch, a) && Shrinks(sch, a, b)
    requires CascadeStep(sch, a, table, cells, mid) && mid in a && NullsOnly(sch, mid.table, a[mid], y)
    requires Reaches(sch, b, mid.table, y, id)
    ensures Reaches(sch, a, table, cells, id)
  {
    hide CascadeStep, Nullable, NullsOnly;
    var path :| CascadePath(sch, b, mid.table, y, path) && path[|path| - 1] == id;
    PathBack(sch, a, b, mid.table, a[mid], y, path);
    var whole := [mid] + path;
    assert whole[1..] == path && whole[0] == mid && whole[|whole| - 1] == id;
    assert CascadePath(sch, a, table, cells, whole);
  }

  lemma {:induction false} ReachDirect(sch: Schema, a: Db, table: Name, cells: Cells, mid: RowId)
    requires CascadeStep(sch, a, table, cells, mid)
    ensures Reaches(sch, a, table, cells, mid)
  {
    assert CascadePath(sch, a, table, cells, [mid]);
  }

  lemma {:induction false} GoneGrows(sch: Schema, a: Db, b: Db, d: Db, table: Name, cells: Cells, f: FK, vals: Tuple)
    requires Gone(sch, a, b, table, cells, f, vals) && forall id :: id in d ==> id in b
    ensures Gone(sch, a, d, table, cells, f, vals)
  {
    hide Project;
  }

  /** One CASCADE child: its own actions ran (b to c), then it was removed (c to d). */
  lemma {:induction false} EffectCascade(sch: Schema, a: Db, b: Db, c: Db, d: Db, p: seq<Pending>, q: seq<Pending>,
                                         table: Name, cells: Cells, mid: RowId, y: Cells)
    requires SchemaOk(sch) && DbOk(sch, a) && p <= q && d == c - {mid}
    requires Effect(sch, a, b, p, table, cells) && Effect(sch, b, c, q, mid.table, y)
    requires Handled(sch, c, q, mid.table, y)
    requires CascadeStep(sch, a, table, cells, mid) && mid in a && NullsOnly(sch, mid.table, a[mid], y)
    ensures Effect(sch, a, d, q, table, cells)
  {
    hide Handled, Nullable, NullsOnly, NullJustified, Reaches, CascadeStep, RemovedAcyclic, CascadeColumnsApart;
    ShrinksDbOk(sch, a, b);
    CascadeShrinks(sch, a, b, c, d, mid);
    RemovedHandledTransitive(sch, a, b, c, p, q);
    forall id | id in a && id !in d ensures Handled(sch, d, q, id.table, a[id]) {
      if id == mid {
        HandledSameRefs(sch, c, q, mid.table, a[mid], y);
      }
      HandledShrinks(sch, c, d, q, q, id.table, a[id]);
    }
    forall id | id in a && id !in d ensures Reaches(sch, a, table, cells, id) {
      if id == mid {
        ReachDirect(sch, a, table, cells, mid);
      } else if id in b {
        ReachThrough(sch, a, b, table, cells, mid, y, id);
      }
    }
    CascadeNulls(sch, a, b, c, d, table, cells, mid, y);
    if CascadeColumnsApart(sch) {
      AcyclicOneMore(sch, a, b, c, d, p, q, mid, y);
    }
  }

  lemma {:induction false} CascadeShrinks(sch: Schema, a: Db, b: Db, c: Db, d: Db, mid: RowId)
    requires Shrinks(sch, a, b) && Shrinks(sch, b, c) && d == c - {mid}
    ensures Shrinks(sch, c, d) && Shrinks(sch, a, c) && Shrinks(sch, a, d)
  {
    hide Nullable, NullsOnly;
    ShrinksTransitive(sch, a, b, c);
    forall id | id in d ensures NullsOnly(sch, id.table, c[id], d[id]) {
      NullsOnlySelf(sch, id.table, c[id]);
    }
    ShrinksTransitive(sch, a, c, d);
  }

  lemma {:induction false} NullsOnlySelf(sch: Schema, table: Name, x: Cells)
    ensures NullsOnly(sch, table, x, x)
  {
  }

  lemma {:induction false} CascadeNulls(sch: Schema, a: Db, b: Db, c: Db, d: Db, table: Name, cells: Cells, mid: RowId,
                                        y: Cells)
    requires SchemaOk(sch) && DbOk(sch, a) && d == c - {mid} && Shrinks(sch, a, b) && Shrinks(sch, b, c)
    requires NullsJustified(sch, a, b, table, cells) && NullsJustified(sch, b, c, mid.table, y)
    requires mid in a && NullsOnly(sch, mid.table, a[mid], y)
    ensures NullsJustified(sch, a, d, table, cells)
  {
    hide Nullable, NullJustified, NullsOnly;
    forall id, n | id in d && id in a && 0 <= n < |a[id]| && n < |d[id]| && d[id][n] != a[id][n]
      ensures NullJustified(sch, a, d, table, cells, id, n)
    {
      WidthKept(sch, id.table, a[id], b[id]);
      WidthKept(sch, id.table, b[id], c[id]);
      if b[id][n] != a[id][n] {
        JustifiedGrows(sch, a, b, d, table, cells, id, n);
      } else {
        JustifiedThrough(sch, a, b, c, d, table, cells, mid, y, id, n);
      }
    }
  }

  lemma {:induction false} WidthKept(sch: Schema, table: Name, x: Cells, y: Cells)
    requires NullsOnly(sch, table, x, y)
    ensures |x| == |y|
  {
  }

  lemma {:induction false} JustifiedGrows(sch: Schema, a: Db, b: Db, d: Db, table: Name, cells: Cells, id: RowId,
                                          n: nat)
    requires id in a && NullJustified(sch, a, b, table, cells, id, n) && forall x :: x in d ==> x in b
    ensures NullJustified(sch, a, d, table, cells, id, n)
  {
    hide Gone, Matches;
    var f, vals :| f in sch.fks && f.onDelete == SetNull && f.child == id.table && n in f.locals &&
      Matches(a[id], f, vals) && Gone(sch, a, b, table, cells, f, vals);
    GoneGrows(sch, a, b, d, table, cells, f, vals);
  }

  /** A null written while the child's own actions ran points at the child or at a row below it. */
  lemma {:induction false} JustifiedThrough(sch: Schema, a: Db, b: Db, c: Db, d: Db, table: Name, cells: Cells,
                                            mid: RowId, y: Cells, id: RowId, n: nat)
    requires SchemaOk(sch) && DbOk(sch, a) && Shrinks(sch, a, b) && Shrinks(sch, b, c) && d == c - {mid}
    requires mid in a && NullsOnly(sch, mid.table, a[mid], y)
    requires id in a && id in b && NullJustified(sch, b, c, mid.table, y, id, n)
    ensures NullJustified(sch, a, d, table, cells, id, n)
  {
    hide Project, Nullable, NullsOnly;
    var f, vals :| f in sch.fks && f.onDelete == SetNull && f.child == id.table && n in f.locals &&
      Matches(b[id], f, vals) && Gone(sch, b, c, mid.table, y, f, vals);
    MatchesBack(sch, f, a[id], b[id], vals);
    assert FkOk(sch, f);
    if f.parent == mid.table && Fits(y, f.refs) && Project(y, f.refs) == Some(vals) {
      FitsRefs(sch, a, f, mid);
      RefTupleStable(sch, f, a[mid], y);
      assert mid !in d;
    } else {
      var r :| r in b && r !in c && r.table == f.parent && Fits(b[r], f.refs) && Project(b[r], f.refs) == Some(vals);
      FitsRefs(sch, a, f, r);
      RefTupleStable(sch, f, a[r], b[r]);
      assert r !in d;
    }
    assert Gone(sch, a, d, table, cells, f, vals);
  }

  lemma {:induction false} FitsRefs(sch: Schema, a: Db, f: FK, r: RowId)
    requires SchemaOk(sch) && DbOk(sch, a) && f in sch.fks && r in a && r.table == f.parent
    ensures Fits(a[r], f.refs)
  {
    assert FkOk(sch, f);
  }

  lemma {:induction false} FitsLocals(sch: Schema, a: Db, f: FK, r: RowId)
    requires SchemaOk(sch) && DbOk(sch, a) && f in sch.fks && r in a && r.table == f.child
    ensures Fits(a[r], f.locals)
  {
    assert FkOk(sch, f);
  }

  /** The row with the key's columns set to NULL. */
  function Nulled(cells: Cells, cols: seq<nat>): (r: Cells)
    ensures |r| == |cells|
    ensures forall c :: 0 <= c < |cells| ==> r[c] == if c in cols then RC.Null else cells[c]
  {
    seq(|cells|, c requires 0 <= c < |cells| => if c in cols then RC.Null else cells[c])
  }

  /** One SET NULL child: its key columns are nulled in place. */
  lemma {:induction false} EffectSetNull(sch: Schema, a: Db, b: Db, p: seq<Pending>, table: Name, cells: Cells,
                                         f: FK, vals: Tuple, id: RowId)
    requires SchemaOk(sch) && DbOk(sch, a) && Effect(sch, a, b, p, table, cells)
    requires f in sch.fks && f.onDelete == SetNull && f.parent == table && Fits(cells, f.refs)
    requires Project(cells, f.refs) == Some(vals)
    requires id in b && id.table == f.child && Matches(b[id], f, vals)
    ensures Effect(sch, a, b[id := Nulled(b[id], f.locals)], p, table, cells)
    ensures !Matches(Nulled(b[id], f.locals), f, vals)
  {
    hide Handled, NullJustified, Reaches, Project, RemovedAcyclic, CascadeColumnsApart;
    var d := b[id := Nulled(b[id], f.locals)];
    SetNullShrinks(sch, b, f, id);
    ShrinksTransitive(sch, a, b, d);
    forall r | r in a && r !in d ensures Handled(sch, d, p, r.table, a[r]) {
      HandledShrinks(sch, b, d, p, p, r.table, a[r]);
    }
    forall r, n | r in d && r in a && 0 <= n < |a[r]| && n < |d[r]| && d[r][n] != a[r][n]
      ensures NullJustified(sch, a, d, table, cells, r, n)
    {
      WidthKept(sch, r.table, a[r], b[r]);
      if b[r][n] != a[r][n] {
        JustifiedGrows(sch, a, b, d, table, cells, r, n);
      } else {
        MatchesBack(sch, f, a[id], b[id], vals);
        DirectNull(sch, a, d, table, cells, f, vals, id, n);
      }
    }
    NulledNoMatch(b[id], f, vals);
    if CascadeColumnsApart(sch) {
      AcyclicSameKeys(sch, a, b, d);
    }
  }

  lemma {:induction false} DirectNull(sch: Schema, a: Db, d: Db, table: Name, cells: Cells, f: FK, vals: Tuple,
                                      id: RowId, n: nat)
    requires f in sch.fks && f.onDelete == SetNull && f.parent == table && Fits(cells, f.refs)
    requires Project(cells, f.refs) == Some(vals)
    requires id in a && id.table == f.child && Matches(a[id], f, vals) && n in f.locals
    ensures NullJustified(sch, a, d, table, cells, id, n)
  {
    hide Project, Matches;
    assert Gone(sch, a, d, table, cells, f, vals);
  }

  lemma {:induction false} SetNullShrinks(sch: Schema, b: Db, f: FK, id: RowId)
    requires SchemaOk(sch) && f in sch.fks && f.onDelete == SetNull && id in b && id.table == f.child
    ensures Shrinks(sch, b, b[id := Nulled(b[id], f.locals)])
  {
    forall c | c in f.locals ensures Nullable(sch, f.child, c) {
      var i :| 0 <= i < |sch.fks| && sch.fks[i] == f;
    }
  }

  lemma {:induction false} NulledNoMatch(cells: Cells, f: FK, vals: Tuple)
    requires Matches(cells, f, vals) && f.locals != []
    ensures !Matches(Nulled(cells, f.locals), f, vals)
  {
    assert f.locals[0] in f.locals;
  }

  // ---- A cascade removes everything it must ----

  lemma {:induction false} CascadeKeyStable(sch: Schema, a: Db, b: Db, f: FK, id: RowId, vals: Tuple)
    requires SchemaOk(sch) && DbOk(sch, a) && CascadeColumnsApart(sch) && Shrinks(sch, a, b)
    requires f in sch.fks && f.onDelete == Cascade && id in b && id.table == f.child && Matches(a[id], f, vals)
    ensures Matches(b[id], f, vals)
  {
    hide Project, Nullable;
    FitsLocals(sch, a, f, id);
    forall i | 0 <= i < |f.locals| ensures !Nullable(sch, f.child, f.locals[i]) {
      assert f.locals[i] in f.locals;
    }
    ProjectNulls(sch, f.child, a[id], b[id], f.locals);
  }

  lemma {:induction false} CascadeChildRemoved(sch: Schema, a: Db, b: Db, pending: seq<Pending>, table: Name,
                                               cells: Cells, id: RowId)
    requires SchemaOk(sch) && DbOk(sch, a) && CascadeColumnsApart(sch) && Shrinks(sch, a, b)
    requires Handled(sch, b, pending, table, cells) && CascadeStep(sch, a, table, cells, id)
    ensures id in a && id !in b
  {
    hide Project, Nullable, Matches, NullsOnly;
    var f, vals :| f in sch.fks && f.onDelete == Cascade && f.parent == table && Fits(cells, f.refs) &&
      Project(cells, f.refs) == Some(vals) && id in a && id.table == f.child && Matches(a[id], f, vals);
    if id in b {
      CascadeKeyStable(sch, a, b, f, id, vals);
    }
  }

  /** After a handled delete, nothing reachable through CASCADE keys is left. */
  lemma {:induction false} CascadeComplete(sch: Schema, a: Db, b: Db, pending: seq<Pending>, table: Name, cells: Cells,
                                           path: seq<RowId>)
    requires SchemaOk(sch) && DbOk(sch, a) && CascadeColumnsApart(sch)
    requires Shrinks(sch, a, b) && RemovedHandled(sch, a, b, pending) && Handled(sch, b, pending, table, cells)
    requires CascadePath(sch, a, table, cells, path)
    ensures path[|path| - 1] !in b
    decreases |path|
  {
    hide SchemaOk, DbOk, CascadeColumnsApart, Shrinks, Handled, CascadeStep;
    CascadeChildRemoved(sch, a, b, pending, table, cells, path[0]);
    if |path| > 1 {
      CascadeComplete(sch, a, b, pending, path[0].table, a[path[0]], path[1..]);
    }
  }

  // ---- A removed row was removed after everything that cascades from it ----

  lemma {:induction false} StepForward(sch: Schema, a: Db, b: Db, table: Name, x: Cells, y: Cells, id: RowId)
    requires SchemaOk(sch) && DbOk(sch, a) && CascadeColumnsApart(sch) && Shrinks(sch, a, b)
    requires NullsOnly(sch, table, x, y) && CascadeStep(sch, a, table, x, id) && id in b
    ensures CascadeStep(sch, b, table, y, id)
  {
    hide Project, Nullable, NullsOnly, Matches;
    var f, vals :| f in sch.fks && f.onDelete == Cascade && f.parent == table && Fits(x, f.refs) &&
      Project(x, f.refs) == Some(vals) && id in a && id.table == f.child && Matches(a[id], f, vals);
    RefTupleStable(sch, f, x, y);
    CascadeKeyStable(sch, a, b, f, id, vals);
  }

  /** The row `x` was handled in `c`; so nothing left in `c` cascades from it. */
  lemma {:induction false} NoStepLeft(sch: Schema, a: Db, c: Db, q: seq<Pending>, table: Name, x: Cells, y: Cells,
                                      id: RowId)
    requires SchemaOk(sch) && DbOk(sch, a) && CascadeColumnsApart(sch) && Shrinks(sch, a, c)
    requires NullsOnly(sch, table, x, y) && Handled(sch, c, q, table, y) && id in c
    ensures !CascadeStep(sch, a, table, x, id)
  {
    hide SchemaOk, DbOk, CascadeColumnsApart, Shrinks, NullsOnly, Handled, CascadeStep;
    if CascadeStep(sch, a, table, x, id) {
      StepForward(sch, a, c, table, x, y, id);
      ShrinksDbOk(sch, a, c);
      ShrinksSelf(sch, c);
      CascadeChildRemoved(sch, c, c, q, table, y, id);
    }
  }

  /** Rows removed from `b` have a sink among them, seen from `a`. */
  lemma {:induction false} SinkBack(sch: Schema, a: Db, b: Db, c: Db, q: seq<Pending>, rows: set<RowId>, x: RowId)
    requires SchemaOk(sch) && DbOk(sch, a) && CascadeColumnsApart(sch) && Shrinks(sch, a, b) && Shrinks(sch, b, c)
    requires RemovedHandled(sch, b, c, q) && x !in c && (forall y :: y in rows ==> y in b)
    requires IsSink(sch, b, (set y | y in rows && y !in c), x)
    ensures IsSink(sch, a, rows, x)
  {
    hide SchemaOk, DbOk, CascadeColumnsApart, NullsOnly, Handled, CascadeStep;
    ShrinksTransitive(sch, a, b, c);
    forall y | y in rows ensures !CascadeStep(sch, a, x.table, a[x], y) {
      if y in c {
        NoStepLeft(sch, a, c, q, x.table, a[x], b[x], y);
      } else if CascadeStep(sch, a, x.table, a[x], y) {
        StepForward(sch, a, b, x.table, a[x], b[x], y);
      }
    }
  }

  lemma {:induction false} AcyclicOneMore(sch: Schema, a: Db, b: Db, c: Db, d: Db, p: seq<Pending>, q: seq<Pending>,
                                          mid: RowId, y: Cells)
    requires SchemaOk(sch) && DbOk(sch, a) && CascadeColumnsApart(sch) && Shrinks(sch, a, b) && Shrinks(sch, b, c)
    requires d == c - {mid}
    requires RemovedHandled(sch, a, b, p) && RemovedHandled(sch, b, c, q) && Handled(sch, c, q, mid.table, y)
    requires mid in a && NullsOnly(sch, mid.table, a[mid], y)
    requires RemovedAcyclic(sch, a, b) && RemovedAcyclic(sch, b, c)
    ensures RemovedAcyclic(sch, a, d)
  {
    hide SchemaOk, DbOk, CascadeColumnsApart, Shrinks, RemovedHandled, NullsOnly, Handled, HasSink;
    forall rows: set<RowId> | rows != {} && RemovedSet(a, d, rows) ensures HasSink(sch, a, rows) {
      SinkOneMore(sch, a, b, c, p, q, mid, y, rows);
    }
  }

  lemma {:induction false} SinkOneMore(sch: Schema, a: Db, b: Db, c: Db, p: seq<Pending>, q: seq<Pending>, mid: RowId,
                                       y: Cells, rows: set<RowId>)
    requires SchemaOk(sch) && DbOk(sch, a) && CascadeColumnsApart(sch) && Shrinks(sch, a, b) && Shrinks(sch, b, c)
    requires RemovedHandled(sch, a, b, p) && RemovedHandled(sch, b, c, q) && Handled(sch, c, q, mid.table, y)
    requires mid in a && NullsOnly(sch, mid.table, a[mid], y)
    requires RemovedAcyclic(sch, a, b) && RemovedAcyclic(sch, b, c)
    requires rows != {} && forall x :: x in rows ==> x in a && (x !in c || x == mid)
    ensures HasSink(sch, a, rows)
  {
    hide SchemaOk, DbOk, CascadeColumnsApart, Shrinks, RemovedHandled, NullsOnly, Handled, CascadeStep, IsSink;
    ShrinksSelf(sch, a);
    var first := set x | x in rows && x !in b;
    var second := set x | x in rows && x !in c;
    if first != {} {
      assert RemovedSet(a, b, first);
      var x :| IsSink(sch, a, first, x);
      SinkMember(sch, a, first, x);
      SinkBack(sch, a, a, b, p, rows, x);
    } else if second != {} {
      assert forall x :: x in rows && x !in b ==> x in first;
      assert RemovedSet(b, c, second);
      var x :| IsSink(sch, b, second, x);
      SinkMember(sch, b, second, x);
      SinkBack(sch, a, b, c, q, rows, x);
    } else {
      ShrinksTransitive(sch, a, b, c);
      assert forall x :: x in rows && x !in c ==> x in second;
      assert rows == {mid};
      NoStepLeft(sch, a, c, q, mid.table, a[mid], y, mid);
      LoneSink(sch, a, mid);
    }
  }

  lemma {:induction false} SinkMember(sch: Schema, a: Db, rows: set<RowId>, x: RowId)
    requires IsSink(sch, a, rows, x)
    ensures x in rows && x in a
  {
  }

  lemma {:induction false} LoneSink(sch: Schema, a: Db, x: RowId)
    requires x in a && !CascadeStep(sch, a, x.table, a[x], x)
    ensures IsSink(sch, a, {x}, x)
  {
  }

  // ---- When a delete may be refused ----

  const MAX_CASCADE_DEPTH: nat := 64

  /** A child references the row through a blocking key that is not deferred. */
  ghost predicate Blocked(sch: Schema, db: Db, table: Name, cells: Cells, deferred: set<FK>) {
    exists f, id, vals :: f in sch.fks && f !in deferred && f.onDelete == Block && f.parent == table &&
      Fits(cells, f.refs) &&
      Project(cells, f.refs) == Some(vals) && id in db && id.table == f.child && Matches(db[id], f, vals)
  }

  /** A chain of CASCADE references leads too deep, or to a row that is blocked. */
  ghost predicate RefusedVia(sch: Schema, db: Db, table: Name, cells: Cells, depth: nat, deferred: set<FK>,
                             path: seq<RowId>) {
    && CascadePath(sch, db, table, cells, path)
    && (depth + |path| > MAX_CASCADE_DEPTH ||
        (path[|path| - 1] in db && Blocked(sch, db, path[|path| - 1].table, db[path[|path| - 1]], deferred)))
  }

  ghost predicate Refused(sch: Schema, db: Db, table: Name, cells: Cells, depth: nat, deferred: set<FK>) {
    || depth > MAX_CASCADE_DEPTH
    || Blocked(sch, db, table, cells, deferred)
    || exists path :: RefusedVia(sch, db, table, cells, depth, deferred, path)
  }

  lemma {:induction false} BlockedBack(sch: Schema, a: Db, b: Db, table: Name, x: Cells, y: Cells, deferred: set<FK>)
    requires SchemaOk(sch) && Shrinks(sch, a, b) && table in sch.tables && |x| == sch.tables[table].ncols
    requires NullsOnly(sch, table, x, y) && Blocked(sch, b, table, y, deferred)
    ensures Blocked(sch, a, table, x, deferred)
  {
    hide Project, Nullable;
    var f, id, vals :| f in sch.fks && f !in deferred && f.onDelete == Block && f.parent == table && Fits(y, f.refs) &&
      Project(y, f.refs) == Some(vals) && id in b && id.table == f.child && Matches(b[id], f, vals);
    assert FkOk(sch, f);
    RefTupleStable(sch, f, x, y);
    MatchesBack(sch, f, a[id], b[id], vals);
  }

  lemma {:induction false} RefusedViaBack(sch: Schema, a: Db, b: Db, table: Name, x: Cells, y: Cells, depth: nat,
                                          deferred: set<FK>, path: seq<RowId>)
    requires SchemaOk(sch) && DbOk(sch, a) && Shrinks(sch, a, b) && table in sch.tables
    requires |x| == sch.tables[table].ncols
    requires NullsOnly(sch, table, x, y) && RefusedVia(sch, b, table, y, depth, deferred, path)
    ensures RefusedVia(sch, a, table, x, depth, deferred, path)
  {
    hide CascadeStep, Nullable, NullsOnly, Blocked, SchemaOk;
    PathBack(sch, a, b, table, x, y, path);
    var z := path[|path| - 1];
    if depth + |path| <= MAX_CASCADE_DEPTH {
      BlockedBack(sch, a, b, z.table, a[z], b[z], deferred);
    }
  }

  /** The same delete is refused from the larger database and the row before nulling. */
  lemma {:induction false} RefusedBack(sch: Schema, a: Db, b: Db, table: Name, x: Cells, y: Cells, depth: nat,
                                       deferred: set<FK>)
    requires SchemaOk(sch) && DbOk(sch, a) && Shrinks(sch, a, b) && table in sch.tables
    requires |x| == sch.tables[table].ncols
    requires NullsOnly(sch, table, x, y) && Refused(sch, b, table, y, depth, deferred)
    ensures Refused(sch, a, table, x, depth, deferred)
  {
    hide SchemaOk, DbOk, Shrinks, NullsOnly, Blocked, RefusedVia;
    if Blocked(sch, b, table, y, deferred) {
      BlockedBack(sch, a, b, table, x, y, deferred);
    } else if depth <= MAX_CASCADE_DEPTH {
      var path :| RefusedVia(sch, b, table, y, depth, deferred, path);
      RefusedViaBack(sch, a, b, table, x, y, depth, deferred, path);
    }
  }

  lemma {:induction false} RefusedAfter(sch: Schema, a: Db, table: Name, cells: Cells, mid: RowId, depth: nat,
                                        deferred: set<FK>, path: seq<RowId>)
    requires CascadeStep(sch, a, table, cells, mid) && mid in a
    requires RefusedVia(sch, a, mid.table, a[mid], depth + 1, deferred, path)
    ensures RefusedVia(sch, a, table, cells, depth, deferred, [mid] + path)
  {
    hide CascadeStep, Blocked;
    var whole := [mid] + path;
    assert whole[1..] == path && whole[|whole| - 1] == path[|path| - 1];
  }

  /** What is refused for a CASCADE child one level deeper is refused for its parent. */
  lemma {:induction false} RefusedThrough(sch: Schema, a: Db, b: Db, table: Name, cells: Cells, mid: RowId, y: Cells,
                                          depth: nat, deferred: set<FK>)
    requires SchemaOk(sch) && DbOk(sch, a) && Shrinks(sch, a, b)
    requires CascadeStep(sch, a, table, cells, mid) && mid in a && NullsOnly(sch, mid.table, a[mid], y)
    requires Refused(sch, b, mid.table, y, depth + 1, deferred)
    ensures Refused(sch, a, table, cells, depth, deferred)
  {
    hide SchemaOk, Shrinks, NullsOnly, Blocked, RefusedVia;
    RefusedBack(sch, a, b, mid.table, a[mid], y, depth + 1, deferred);
    if depth + 1 > MAX_CASCADE_DEPTH || Blocked(sch, a, mid.table, a[mid], deferred) {
      OneStep(sch, a, table, cells, mid, depth, deferred);
    } else {
      var path :| RefusedVia(sch, a, mid.table, a[mid], depth + 1, deferred, path);
      RefusedAfter(sch, a, table, cells, mid, depth, deferred, path);
    }
  }

  lemma {:induction false} OneStep(sch: Schema, a: Db, table: Name, cells: Cells, mid: RowId, depth: nat,
                                   deferred: set<FK>)
    requires CascadeStep(sch, a, table, cells, mid) && mid in a
    requires depth + 1 > MAX_CASCADE_DEPTH || Blocked(sch, a, mid.table, a[mid], deferred)
    ensures RefusedVia(sch, a, table, cells, depth, deferred, [mid])
  {
    hide CascadeStep, Blocked;
  }

  // ---- Whole statements ----

  /** The tuple belonged to a removed row. */
  ghost predicate GoneRow(a: Db, b: Db, f: FK, vals: Tuple) {
    exists r :: r in a && r !in b && r.table == f.parent && Fits(a[r], f.refs) && Project(a[r], f.refs) == Some(vals)
  }

  ghost predicate NullExplained(sch: Schema, a: Db, b: Db, id: RowId, c: nat)
    requires id in a
  {
    exists f, vals :: f in sch.fks && f.onDelete == SetNull && f.child == id.table && c in f.locals &&
      Matches(a[id], f, vals) && GoneRow(a, b, f, vals)
  }

  ghost predicate FromRoots(sch: Schema, a: Db, roots: set<RowId>, id: RowId) {
    id in roots || exists r :: r in roots && r in a && Reaches(sch, a, r.table, a[r], id)
  }

  /** What a DELETE of the rows `roots` may have done. */
  ghost predicate Deleted(sch: Schema, a: Db, b: Db, pending: seq<Pending>, roots: set<RowId>) {
    && Shrinks(sch, a, b) && RemovedHandled(sch, a, b, pending)
    && (forall r :: r in roots ==> r in a && r !in b)
    && (forall id :: id in a && id !in b ==> FromRoots(sch, a, roots, id))
    && (forall id, c :: id in b && id in a && 0 <= c < |a[id]| && c < |b[id]| && b[id][c] != a[id][c] ==>
          NullExplained(sch, a, b, id, c))
    && (CascadeColumnsApart(sch) ==> RemovedAcyclic(sch, a, b))
  }

  lemma {:induction false} ExplainedGrows(sch: Schema, a: Db, b: Db, d: Db, id: RowId, c: nat)
    requires id in a && NullExplained(sch, a, b, id, c) && forall x :: x in d ==> x in b
    ensures NullExplained(sch, a, d, id, c)
  {
    hide Project, Matches;
    var f, vals :| f in sch.fks && f.onDelete == SetNull && f.child == id.table && c in f.locals &&
      Matches(a[id], f, vals) && GoneRow(a, b, f, vals);
    assert GoneRow(a, d, f, vals);
  }

  lemma {:induction false} ExplainedThrough(sch: Schema, a: Db, b: Db, c: Db, d: Db, mid: RowId, y: Cells, id: RowId,
                                            n: nat)
    requires SchemaOk(sch) && DbOk(sch, a) && Shrinks(sch, a, b) && Shrinks(sch, b, c) && d == c - {mid}
    requires mid in a && NullsOnly(sch, mid.table, a[mid], y)
    requires id in a && id in b && NullJustified(sch, b, c, mid.table, y, id, n)
    ensures NullExplained(sch, a, d, id, n)
  {
    hide Project, Nullable, NullsOnly;
    var f, vals :| f in sch.fks && f.onDelete == SetNull && f.child == id.table && n in f.locals &&
      Matches(b[id], f, vals) && Gone(sch, b, c, mid.table, y, f, vals);
    MatchesBack(sch, f, a[id], b[id], vals);
    assert FkOk(sch, f);
    if f.parent == mid.table && Fits(y, f.refs) && Project(y, f.refs) == Some(vals) {
      FitsRefs(sch, a, f, mid);
      RefTupleStable(sch, f, a[mid], y);
      assert mid !in d;
    } else {
      var r :| r in b && r !in c && r.table == f.parent && Fits(b[r], f.refs) && Project(b[r], f.refs) == Some(vals);
      FitsRefs(sch, a, f, r);
      RefTupleStable(sch, f, a[r], b[r]);
      assert r !in d;
    }
    assert GoneRow(a, d, f, vals);
  }

  lemma {:induction false} ReachBack(sch: Schema, a: Db, b: Db, r: RowId, y: Cells, id: RowId)
    requires SchemaOk(sch) && DbOk(sch, a) && Shrinks(sch, a, b) && r in a && NullsOnly(sch, r.table, a[r], y)
    requires Reaches(sch, b, r.table, y, id)
    ensures Reaches(sch, a, r.table, a[r], id)
  {
    hide CascadeStep, Nullable, NullsOnly;
    var path :| CascadePath(sch, b, r.table, y, path) && path[|path| - 1] == id;
    PathBack(sch, a, b, r.table, a[r], y, path);
  }

  /** One more row of the statement: its actions ran (b to c), then it was removed (c to d). */
  lemma {:induction false} DeletedOneMore(sch: Schema, a: Db, b: Db, c: Db, d: Db, p: seq<Pending>, q: seq<Pending>,
                                          roots: set<RowId>, r: RowId, y: Cells)
    requires SchemaOk(sch) && DbOk(sch, a) && p <= q && d == c - {r}
    requires Deleted(sch, a, b, p, roots) && Effect(sch, b, c, q, r.table, y) && Handled(sch, c, q, r.table, y)
    requires r in a && NullsOnly(sch, r.table, a[r], y)
    ensures Deleted(sch, a, d, q, roots + {r})
  {
    hide Handled, Nullable, NullsOnly, NullJustified, NullExplained, Reaches, FromRoots, RemovedAcyclic,
      CascadeColumnsApart;
    CascadeShrinks(sch, a, b, c, d, r);
    RemovedHandledTransitive(sch, a, b, c, p, q);
    forall id | id in a && id !in d ensures Handled(sch, d, q, id.table, a[id]) {
      if id == r {
        HandledSameRefs(sch, c, q, r.table, a[r], y);
      }
      HandledShrinks(sch, c, d, q, q, id.table, a[id]);
    }
    forall id | id in a && id !in d ensures FromRoots(sch, a, roots + {r}, id) {
      RootOf(sch, a, b, c, roots, r, y, id);
    }
    forall id, n | id in d && id in a && 0 <= n < |a[id]| && n < |d[id]| && d[id][n] != a[id][n]
      ensures NullExplained(sch, a, d, id, n)
    {
      WidthKept(sch, id.table, a[id], b[id]);
      if b[id][n] != a[id][n] {
        ExplainedGrows(sch, a, b, d, id, n);
      } else {
        ExplainedThrough(sch, a, b, c, d, r, y, id, n);
      }
    }
    if CascadeColumnsApart(sch) {
      AcyclicOneMore(sch, a, b, c, d, p, q, r, y);
    }
  }

  lemma {:induction false} RootOf(sch: Schema, a: Db, b: Db, c: Db, roots: set<RowId>, r: RowId, y: Cells, id: RowId)
    requires SchemaOk(sch) && DbOk(sch, a) && Shrinks(sch, a, b) && r in a && NullsOnly(sch, r.table, a[r], y)
    requires id in a && (id !in c || id == r)
    requires id !in b ==> FromRoots(sch, a, roots, id)
    requires id in b && id !in c ==> Reaches(sch, b, r.table, y, id)
    ensures FromRoots(sch, a, roots + {r}, id)
  {
    hide Reaches, Nullable, NullsOnly;
    if id in b && id != r {
      ReachBack(sch, a, b, r, y, id);
    }
  }

  /** A completed DELETE removes exactly its rows and whatever cascades from them. */
  lemma {:induction false} DeletedExactly(sch: Schema, a: Db, b: Db, pending: seq<Pending>, roots: set<RowId>,
                                          id: RowId)
    requires SchemaOk(sch) && DbOk(sch, a) && CascadeColumnsApart(sch) && Deleted(sch, a, b, pending, roots) && id in a
    ensures id !in b <==> FromRoots(sch, a, roots, id)
  {
    hide SchemaOk, DbOk, CascadeColumnsApart, Shrinks, Handled, CascadeStep, NullExplained;
    if FromRoots(sch, a, roots, id) && id !in roots {
      var r :| r in roots && r in a && Reaches(sch, a, r.table, a[r], id);
      var path :| CascadePath(sch, a, r.table, a[r], path) && path[|path| - 1] == id;
      CascadeComplete(sch, a, b, pending, r.table, a[r], path);
    }
  }

  /** A row left behind after the row it referenced by CASCADE was handled has lost that reference. */
  lemma {:induction false} LeftBehind(sch: Schema, a: Db, b: Db, pending: seq<Pending>, table: Name, cells: Cells,
                                      id: RowId)
    requires Handled(sch, b, pending, table, cells) && CascadeStep(sch, a, table, cells, id) && id in b
    ensures id in a && b[id] != a[id]
  {
    hide Project;
  }

  /** On a chain of CASCADE references whose end is left, the first row left has been nulled. */
  lemma {:induction false} FirstLeft(sch: Schema, a: Db, b: Db, pending: seq<Pending>, table: Name, cells: Cells,
                                     path: seq<RowId>)
    returns (k: nat)
    requires Shrinks(sch, a, b) && RemovedHandled(sch, a, b, pending) && Handled(sch, b, pending, table, cells)
    requires CascadePath(sch, a, table, cells, path) && path[|path| - 1] in b
    ensures k < |path| && path[k] in b && path[k] in a && b[path[k]] != a[path[k]]
    ensures CascadePath(sch, a, table, cells, path[..k + 1])
    decreases |path|
  {
    hide Shrinks, Handled, CascadeStep;
    k := 0;
    if path[0] in b {
      LeftBehind(sch, a, b, pending, table, cells, path[0]);
    } else {
      var i := FirstLeft(sch, a, b, pending, path[0].table, a[path[0]], path[1..]);
      k := i + 1;
      assert path[..k + 1][1..] == path[1..][..i + 1];
    }
  }

  ghost predicate RemovesTheCascade(sch: Schema, a: Db, b: Db, roots: set<RowId>) {
    forall id :: id in a ==> (id !in b <==> FromRoots(sch, a, roots, id))
  }

  ghost predicate NulledInCascade(sch: Schema, a: Db, b: Db, roots: set<RowId>, x: RowId) {
    x in b && x in a && FromRoots(sch, a, roots, x) && b[x] != a[x]
  }

  lemma {:induction false} LeftRowNulled(sch: Schema, a: Db, b: Db, pending: seq<Pending>, roots: set<RowId>, id: RowId)
    requires Deleted(sch, a, b, pending, roots) && id in a && id in b && FromRoots(sch, a, roots, id)
    ensures exists x :: NulledInCascade(sch, a, b, roots, x)
  {
    hide Handled, CascadeStep, NullExplained, NullsOnly;
    var r :| r in roots && r in a && Reaches(sch, a, r.table, a[r], id);
    var path :| CascadePath(sch, a, r.table, a[r], path) && path[|path| - 1] == id;
    var k := FirstLeft(sch, a, b, pending, r.table, a[r], path);
    assert path[..k + 1][|path[..k + 1]| - 1] == path[k];
    assert FromRoots(sch, a, roots, path[k]);
    assert NulledInCascade(sch, a, b, roots, path[k]);
  }

  /** In any schema a completed DELETE removes exactly its rows and whatever cascades from them if and only
      if SET NULL touched no row of the cascade. */
  lemma {:induction false} DeletedExactlyIff(sch: Schema, a: Db, b: Db, pending: seq<Pending>, roots: set<RowId>)
    requires SchemaOk(sch) && DbOk(sch, a) && Deleted(sch, a, b, pending, roots)
    ensures RemovesTheCascade(sch, a, b, roots) <==> !exists x :: NulledInCascade(sch, a, b, roots, x)
  {
    hide SchemaOk, DbOk, FromRoots, RemovedHandled, Shrinks, NullExplained;
    forall id | id in a && FromRoots(sch, a, roots, id) && id in b
      ensures exists x :: NulledInCascade(sch, a, b, roots, x)
    {
      LeftRowNulled(sch, a, b, pending, roots, id);
    }
  }

  /** A row of the cascade references another row of it through a SET NULL key. */
  ghost predicate NullableInCascade(sch: Schema, a: Db, roots: set<RowId>, x: RowId, f: FK, r: RowId, vals: Tuple) {
    && f in sch.fks && f.onDelete == SetNull && x in a && r in a && x.table == f.child && r.table == f.parent
    && FromRoots(sch, a, roots, x) && FromRoots(sch, a, roots, r)
    && Matches(a[x], f, vals) && Fits(a[r], f.refs) && Project(a[r], f.refs) == Some(vals)
  }

  lemma {:induction false} NulledHasReason(sch: Schema, a: Db, b: Db, pending: seq<Pending>, roots: set<RowId>,
                                           x: RowId)
    requires Deleted(sch, a, b, pending, roots) && NulledInCascade(sch, a, b, roots, x)
    ensures exists f, r, vals :: NullableInCascade(sch, a, roots, x, f, r, vals)
  {
    hide FromRoots, RemovedHandled, Matches, Project;
    assert |a[x]| == |b[x]|;
    var c :| 0 <= c < |a[x]| && b[x][c] != a[x][c];
    var f, vals :| f in sch.fks && f.onDelete == SetNull && f.child == x.table && c in f.locals &&
      Matches(a[x], f, vals) && GoneRow(a, b, f, vals);
    var r :| r in a && r !in b && r.table == f.parent && Fits(a[r], f.refs) && Project(a[r], f.refs) == Some(vals);
    assert NullableInCascade(sch, a, roots, x, f, r, vals);
  }

  /** Whatever the schema, rows that do not reference one another through a SET NULL key are all removed. */
  lemma {:induction false} DeletedExactlyUnless(sch: Schema, a: Db, b: Db, pending: seq<Pending>, roots: set<RowId>)
    requires SchemaOk(sch) && DbOk(sch, a) && Deleted(sch, a, b, pending, roots)
    requires forall x, f, r, vals :: !NullableInCascade(sch, a, roots, x, f, r, vals)
    ensures RemovesTheCascade(sch, a, b, roots)
  {
    hide SchemaOk, DbOk, Deleted, NulledInCascade, NullableInCascade;
    DeletedExactlyIff(sch, a, b, pending, roots);
    forall x ensures !NulledInCascade(sch, a, b, roots, x) {
      if NulledInCascade(sch, a, b, roots, x) { NulledHasReason(sch, a, b, pending, roots, x); }
    }
  }

  /** Rows below the deleted ones, each with a CASCADE reference from another of them. */
  ghost predicate CascadeCycle(sch: Schema, a: Db, roots: set<RowId>, rows: set<RowId>) {
    && rows != {} && (forall x :: x in rows ==> x in a && FromRoots(sch, a, roots, x))
    && (forall x :: x in rows && x in a ==> exists y :: y in rows && CascadeStep(sch, a, x.table, a[x], y))
  }

  /** No DELETE whose cascade runs into a cycle of rows ever succeeds. */
  lemma {:induction false} CyclicDeleteRefused(sch: Schema, a: Db, b: Db, pending: seq<Pending>, roots: set<RowId>,
                                               rows: set<RowId>)
    requires SchemaOk(sch) && DbOk(sch, a) && CascadeColumnsApart(sch) && Deleted(sch, a, b, pending, roots)
    ensures !CascadeCycle(sch, a, roots, rows)
  {
    hide SchemaOk, DbOk, CascadeColumnsApart, Shrinks, RemovedHandled, FromRoots, NullExplained, CascadeStep;
    forall x | x in rows && x in a && FromRoots(sch, a, roots, x) ensures x !in b {
      DeletedExactly(sch, a, b, pending, roots, x);
    }
    assert CascadeCycle(sch, a, roots, rows) ==> RemovedSet(a, b, rows);
    assert CascadeCycle(sch, a, roots, rows) ==> !HasSink(sch, a, rows);
  }

  const STAFF: Name := [115]
  const BOSS_KEY: FK := FK([98], STAFF, STAFF, [1], [0], Cascade, false, false)
  const SELF_CASCADE: Schema := Schema(map[STAFF := TableInfo(2, 0)], [BOSS_KEY])

  /** A row that references itself by CASCADE: the tables are in order with it and without it, and no
      DELETE of it succeeds. */
  lemma {:induction false} SelfReferenceUndeletable(b: Db, pending: seq<Pending>)
    ensures
      var id := RowId(STAFF, [65]);
      var a: Db := map[id := [RC.Text([65]), RC.Text([65])]];
      && SchemaOk(SELF_CASCADE) && DbOk(SELF_CASCADE, a) && NoOrphans(SELF_CASCADE, a)
      && NoOrphans(SELF_CASCADE, a - {id}) && !Deleted(SELF_CASCADE, a, b, pending, {id})
  {
    hide Deleted, SchemaOk, DbOk, CascadeCycle, Orphan, CascadeColumnsApart;
    SelfReferenceOk();
    SelfReferenceCycle();
    var id := RowId(STAFF, [65]);
    var a: Db := map[id := [RC.Text([65]), RC.Text([65])]];
    assert forall f, r, vals :: !Orphan(SELF_CASCADE, a - {id}, f, r, vals) by { EmptyHasNoOrphans(a - {id}); }
    if Deleted(SELF_CASCADE, a, b, pending, {id}) {
      CyclicDeleteRefused(SELF_CASCADE, a, b, pending, {id}, {id});
    }
  }

  lemma {:induction false} EmptyHasNoOrphans(db: Db)
    requires forall id :: id !in db
    ensures NoOrphans(SELF_CASCADE, db)
  {
  }

  lemma {:induction false} SelfReferenceOk()
    ensures
      var a: Db := map[RowId(STAFF, [65]) := [RC.Text([65]), RC.Text([65])]];
      SchemaOk(SELF_CASCADE) && DbOk(SELF_CASCADE, a) && NoOrphans(SELF_CASCADE, a) && CascadeColumnsApart(SELF_CASCADE)
  {
    var row := [RC.Text([65]), RC.Text([65])];
    assert FkOk(SELF_CASCADE, BOSS_KEY);
    assert Project(row, [1]).value == [[65]] && Project(row, [0]).value == [[65]];
  }

  lemma {:induction false} SelfReferenceCycle()
    ensures
      var id := RowId(STAFF, [65]);
      var a: Db := map[id := [RC.Text([65]), RC.Text([65])]];
      CascadeCycle(SELF_CASCADE, a, {id}, {id})
  {
    hide CascadePath, Nullable;
    var f, id, row := BOSS_KEY, RowId(STAFF, [65]), [RC.Text([65]), RC.Text([65])];
    var a: Db := map[id := row];
    assert Project(row, f.locals).value == [[65]] && Project(row, f.refs).value == [[65]];
    assert Matches(row, f, [[65]]);
    assert CascadeStep(SELF_CASCADE, a, STAFF, row, id);
    assert FromRoots(SELF_CASCADE, a, {id}, id);
  }
}
