/** Secondary-index maintenance (engine/internal/executor/index.go, dml.go, upsert.go) by any number of
    interleaved transactions on main: the index is a cache of the rows, and every committed state and
    every transaction's own view keeps it exact. */
module IndexMaintenance {
  import opened Bytes
  import opened Versions
  import opened OrderEncoding
  import opened Keys
  import RC = RowCodec
  import Decimal

  type Datum = RC.Datum

  datatype Kind = KInt | KBool | KText

  /** A full, non-expression index over one or more columns. */
  datatype IndexDef = IndexDef(name: Bytes, cols: seq<nat>)

  /** A table with a declared single-column primary key. */
  datatype Table = Table(ns: Bytes, name: Bytes, kinds: seq<Kind>, pk: nat, defs: seq<IndexDef>)

  predicate ColsOk(t: Table, cols: seq<nat>) {
    forall i :: 0 <= i < |cols| ==> cols[i] < |t.kinds|
  }

  ghost predicate TableOk(t: Table) {
    && t.pk < |t.kinds|
    && (forall d :: d in t.defs ==> NoSlash(d.name))
    && (forall d :: d in t.defs ==> ColsOk(t, d.cols))
    && (forall i, j :: 0 <= i < j < |t.defs| ==> t.defs[i].name != t.defs[j].name)
  }

  function KindOf(v: Value): Kind {
    match v { case Int(_) => KInt case Bool(_) => KBool case Text(_) => KText }
  }

  /** A cell's text as a value of its column type; None is the 22P02 error of `orderEncode`. */
  function Typed(kind: Kind, text: Bytes): (r: Option<Value>)
    ensures r.Some? ==> KindOf(r.value) == kind
  {
    match kind
    case KInt => (match Decimal.ParseInt64(Decimal.TrimSpace(text)) { case Some(v) => Some(Int(v)) case None => None })
    case KBool => Some(Bool(Decimal.IsTruthy(text)))
    case KText => Some(Value.Text(text))
  }

  datatype TupleResult = NullColumn | BadValue | Tuple(vs: seq<Value>)

  /** `encodeIndexTuple`, before encoding: column by column, the first NULL or error ends it. */
  function TupleOf(t: Table, cols: seq<nat>, cells: seq<Datum>): TupleResult
    requires |cells| == |t.kinds| && ColsOk(t, cols)
    decreases |cols|
  {
    if cols == [] then Tuple([])
    else if cells[cols[0]].Null? then NullColumn
    else match Typed(t.kinds[cols[0]], cells[cols[0]].text)
      case None => BadValue
      case Some(v) => Prepend([v], TupleOf(t, cols[1..], cells))
  }

  ghost predicate HasShape(t: Table, d: IndexDef, tup: seq<Value>)
    requires ColsOk(t, d.cols)
  {
    |tup| == |d.cols| && forall i :: 0 <= i < |tup| ==> KindOf(tup[i]) == t.kinds[d.cols[i]]
  }

  function RK(t: Table, pk: Bytes): Key {
    RowKey(t.ns, MAIN_NAME, t.name, pk)
  }

  function IK(t: Table, d: IndexDef, tup: seq<Value>, pk: Bytes): Key {
    IndexKey(t.ns, MAIN_NAME, t.name, d.name, EncodeTuple(tup), pk)
  }

  /** `encodeIndexTuple`: the byte-appending loop, against the tuple. */
  method EncodeIndexTuple(t: Table, cols: seq<nat>, cells: seq<Datum>) returns (enc: Bytes, ok: bool, err: bool)
    requires |cells| == |t.kinds| && ColsOk(t, cols)
    ensures ok <==> TupleOf(t, cols, cells).Tuple?
    ensures err <==> TupleOf(t, cols, cells).BadValue?
    ensures ok ==> enc == EncodeTuple(TupleOf(t, cols, cells).vs)
  {
    hide OrderEncode, Typed;
    enc, ok, err := [], true, false;
    ghost var done: seq<Value> := [];
    var i := 0;
    assert cols[0..] == cols;
    assert TupleOf(t, cols, cells) == Prepend([], TupleOf(t, cols, cells)) by { PrependEmpty(TupleOf(t, cols, cells)); }
    while i < |cols|
      invariant 0 <= i <= |cols| && ok && !err
      invariant enc == EncodeTuple(done)
      invariant TupleOf(t, cols, cells) == Prepend(done, TupleOf(t, cols[i..], cells))
    {
      hide EncodeTuple;
      var c := cols[i];
      assert cols[i..][0] == c && cols[i..][1..] == cols[i + 1..];
      if cells[c].Null? { return [], false, false; }
      var v := Typed(t.kinds[c], cells[c].text);
      if v.None? { return [], false, true; }
      EncodeTupleSnoc(done, v.value);
      PrependStep(done, v.value, TupleOf(t, cols[i + 1..], cells));
      enc := enc + OrderEncode(v.value);
      done := done + [v.value];
      i := i + 1;
    }
    assert done + [] == done;
  }

  function Prepend(vs: seq<Value>, r: TupleResult): TupleResult {
    if r.Tuple? then Tuple(vs + r.vs) else r
  }

  lemma {:induction false} PrependEmpty(r: TupleResult)
    ensures Prepend([], r) == r
  {
    if r.Tuple? { assert [] + r.vs == r.vs; }
  }

  lemma {:induction false} PrependStep(vs: seq<Value>, v: Value, r: TupleResult)
    ensures Prepend(vs, Prepend([v], r)) == Prepend(vs + [v], r)
  {
    if r.Tuple? { assert vs + ([v] + r.vs) == vs + [v] + r.vs; }
  }

  lemma {:induction false} EncodeTupleSnoc(vs: seq<Value>, v: Value)
    ensures EncodeTuple(vs + [v]) == EncodeTuple(vs) + OrderEncode(v)
    decreases |vs|
  {
    hide OrderEncode;
    if vs == [] {
      assert [v][1..] == [] && vs + [v] == [v];
    } else {
      EncodeTupleSnoc(vs[1..], v);
      assert (vs + [v])[1..] == vs[1..] + [v];
    }
  }

  // ---- Distinct rows and entries have distinct keys ----

  lemma {:induction false} ShapesAgree(t: Table, d: IndexDef, a: seq<Value>, b: seq<Value>)
    requires TableOk(t) && d in t.defs && HasShape(t, d, a) && HasShape(t, d, b)
    ensures SameShape(a, b)
  {
    forall i | 0 <= i < |a| ensures SameKind(a[i], b[i]) {
      assert KindOf(a[i]) == KindOf(b[i]);
    }
  }

  lemma {:induction false} TupleHasShape(t: Table, cols: seq<nat>, cells: seq<Datum>)
    requires |cells| == |t.kinds| && ColsOk(t, cols)
    ensures var r := TupleOf(t, cols, cells);
      r.Tuple? ==> |r.vs| == |cols| && forall i :: 0 <= i < |cols| ==> KindOf(r.vs[i]) == t.kinds[cols[i]]
    decreases |cols|
  {
    if cols != [] { TupleHasShape(t, cols[1..], cells); }
  }

  lemma {:induction false} EntryKeysDistinct(t: Table, d: IndexDef, a: seq<Value>, p: Bytes,
                                             e: IndexDef, b: seq<Value>, q: Bytes)
    requires TableOk(t) && d in t.defs && e in t.defs && HasShape(t, d, a) && HasShape(t, e, b)
    ensures IK(t, d, a, p) == IK(t, e, b, q) <==> d == e && a == b && p == q
  {
    if IK(t, d, a, p) == IK(t, e, b, q) {
      IndexKeyShape(t.ns, MAIN_NAME, t.name, d.name, EncodeTuple(a), p);
      IndexKeyShape(t.ns, MAIN_NAME, t.name, e.name, EncodeTuple(b), q);
      IndexesDisjoint(t.ns, MAIN_NAME, t.name, d.name, e.name, IK(t, d, a, p));
      assert d == e;
      ShapesAgree(t, d, a, b);
      IndexKeyInjective(t.ns, MAIN_NAME, t.name, d.name, a, p, b, q);
    }
  }

  lemma {:induction false} RowAndEntryDistinct(t: Table, p: Bytes, d: IndexDef, tup: seq<Value>, q: Bytes)
    ensures RK(t, p) != IK(t, d, tup, q)
  {
    RowKeyShape(t.ns, MAIN_NAME, t.name, p);
    IndexKeyShape(t.ns, MAIN_NAME, t.name, d.name, EncodeTuple(tup), q);
    DataAndIndexDisjoint(t.ns, MAIN_NAME, t.name, t.name, d.name, RK(t, p));
  }

  lemma {:induction false} RowKeysDistinct(t: Table, p: Bytes, q: Bytes)
    ensures RK(t, p) == RK(t, q) <==> p == q
  {
    RowKeyInjective(t.ns, MAIN_NAME, t.name, p, q);
  }

  // ---- What a statement buffers for one row ----

  /** `indexEntries`: one write or delete per index whose columns are all non-NULL. */
  function EntryMuts(t: Table, defs: seq<IndexDef>, cells: seq<Datum>, pk: Bytes, add: bool): seq<Mutation>
    requires |cells| == |t.kinds| && forall d :: d in defs ==> ColsOk(t, d.cols)
    decreases |defs|
  {
    if defs == [] then []
    else
      var d := defs[0];
      var tup := TupleOf(t, d.cols, cells);
      (if tup.Tuple? then [Mutation(IK(t, d, tup.vs, pk), if add then pk else [], !add)] else [])
      + EntryMuts(t, defs[1..], cells, pk, add)
  }

  /** The buffering loop of `indexEntries`. A value that is not of its column's type ends it with the
      22P02 error; what earlier indexes buffered stays in the buffer. */
  method IndexEntries(t: Table, cells: seq<Datum>, pk: Bytes, add: bool, buffer: seq<Mutation>)
    returns (out: seq<Mutation>, err: bool)
    requires TableOk(t) && |cells| == |t.kinds|
    ensures err <==> exists d :: d in t.defs && TupleOf(t, d.cols, cells).BadValue?
    ensures !err ==> out == buffer + EntryMuts(t, t.defs, cells, pk, add)
    ensures err ==> buffer <= out <= buffer + EntryMuts(t, t.defs, cells, pk, add)
  {
    hide TupleOf, EncodeTuple, IK, IndexKey, ColsOk;
    out, err := buffer, false;
    var i := 0;
    assert t.defs[0..] == t.defs;
    while i < |t.defs|
      invariant 0 <= i <= |t.defs| && buffer <= out
      invariant buffer + EntryMuts(t, t.defs, cells, pk, add) == out + EntryMuts(t, t.defs[i..], cells, pk, add)
      invariant forall j :: 0 <= j < i ==> !TupleOf(t, t.defs[j].cols, cells).BadValue?
    {
      var d := t.defs[i];
      assert t.defs[i..][0] == d && t.defs[i..][1..] == t.defs[i + 1..];
      var enc, ok, bad := EncodeIndexTuple(t, d.cols, cells);
      if bad { return out, true; }
      if ok {
        ghost var tup := TupleOf(t, d.cols, cells).vs;
        var m := Mutation(IndexKey(t.ns, MAIN_NAME, t.name, d.name, enc, pk), if add then pk else [], !add);
        assert m.key == IK(t, d, tup, pk) by { EntryKeyIs(t, d, tup, pk); }
        ghost var rest := EntryMuts(t, t.defs[i + 1..], cells, pk, add);
        assert out + ([m] + rest) == out + [m] + rest;
        out := out + [m];
      }
      i := i + 1;
    }
  }

  lemma {:induction false} EntryKeyIs(t: Table, d: IndexDef, tup: seq<Value>, pk: Bytes)
    ensures IndexKey(t.ns, MAIN_NAME, t.name, d.name, EncodeTuple(tup), pk) == IK(t, d, tup, pk)
  {
  }

  ghost predicate RowOk(t: Table, cells: seq<Datum>, pk: Bytes)
    requires TableOk(t)
  {
    && |cells| == |t.kinds| && RC.Sized(cells) && cells[t.pk] == RC.Text(pk)
    && forall d :: d in t.defs ==> !TupleOf(t, d.cols, cells).BadValue?
  }

  /** INSERT (prior = None), UPDATE and upsert: drop the old entries, write the row, add the new. */
  function PutMuts(t: Table, pk: Bytes, prior: Option<seq<Datum>>, cells: seq<Datum>): seq<Mutation>
    requires |cells| == |t.kinds| && (prior.Some? ==> |prior.value| == |t.kinds|)
    requires forall d :: d in t.defs ==> ColsOk(t, d.cols)
  {
    (if prior.Some? then EntryMuts(t, t.defs, prior.value, pk, false) else [])
    + ([Mutation(RK(t, pk), RC.EncodeRow(cells), false)] + EntryMuts(t, t.defs, cells, pk, true))
  }

  /** DELETE: remove the row, then its entries. */
  function DeleteMuts(t: Table, pk: Bytes, prior: seq<Datum>): seq<Mutation>
    requires |prior| == |t.kinds| && forall d :: d in t.defs ==> ColsOk(t, d.cols)
  {
    [Mutation(RK(t, pk), [], true)] + EntryMuts(t, t.defs, prior, pk, false)
  }

  lemma {:induction false} LastWriteSingle(m: Mutation, k: Key)
    ensures LastWrite([m], k) == if m.key == k then Some(m) else None
  {
    assert [m][..0] == [];
  }

  /** Among the index writes of one row, an entry key is written exactly if it is that row's entry. */
  lemma {:induction false} EntryMutsLast(t: Table, defs: seq<IndexDef>, cells: seq<Datum>, pk: Bytes, add: bool,
                                         d: IndexDef, tup: seq<Value>, q: Bytes)
    requires TableOk(t) && |cells| == |t.kinds| && d in t.defs && HasShape(t, d, tup)
    requires forall e :: e in defs ==> e in t.defs
    ensures LastWrite(EntryMuts(t, defs, cells, pk, add), IK(t, d, tup, q)) ==
      if d in defs && q == pk && TupleOf(t, d.cols, cells) == Tuple(tup)
      then Some(Mutation(IK(t, d, tup, q), if add then pk else [], !add)) else None
    decreases |defs|
  {
    hide LastWrite, TupleOf, IK;
    var k := IK(t, d, tup, q);
    if defs == [] {
      LastWriteEmpty(k);
    } else {
      var e := defs[0];
      var et := TupleOf(t, e.cols, cells);
      var head := if et.Tuple? then [Mutation(IK(t, e, et.vs, pk), if add then pk else [], !add)] else [];
      EntryMutsLast(t, defs[1..], cells, pk, add, d, tup, q);
      LastWriteAppend(head, EntryMuts(t, defs[1..], cells, pk, add), k);
      LastWriteEmpty(k);
      if et.Tuple? {
        TupleHasShape(t, e.cols, cells);
        EntryKeysDistinct(t, e, et.vs, pk, d, tup, q);
        LastWriteSingle(head[0], k);
      }
    }
  }

  lemma {:induction false} LastWriteEmpty(k: Key)
    ensures LastWrite([], k) == None
  {
  }

  lemma {:induction false} EntryMutsKeys(t: Table, defs: seq<IndexDef>, cells: seq<Datum>, pk: Bytes, add: bool,
                                         m: Mutation)
    requires TableOk(t) && |cells| == |t.kinds| && forall e :: e in defs ==> e in t.defs
    requires m in EntryMuts(t, defs, cells, pk, add)
    ensures exists d, tup :: d in t.defs && HasShape(t, d, tup) && m.key == IK(t, d, tup, pk)
    decreases |defs|
  {
    hide IK;
    var e := defs[0];
    var et := TupleOf(t, e.cols, cells);
    if et.Tuple? && m == Mutation(IK(t, e, et.vs, pk), if add then pk else [], !add) {
      TupleHasShape(t, e.cols, cells);
      assert HasShape(t, e, et.vs);
    } else {
      EntryMutsKeys(t, defs[1..], cells, pk, add, m);
    }
  }

  lemma {:induction false} EntryMutsMissRows(t: Table, cells: seq<Datum>, pk: Bytes, add: bool, q: Bytes)
    requires TableOk(t) && |cells| == |t.kinds|
    ensures LastWrite(EntryMuts(t, t.defs, cells, pk, add), RK(t, q)) == None
  {
    hide IK, RK;
    var ms := EntryMuts(t, t.defs, cells, pk, add);
    if Writes(ms, RK(t, q)) {
      var i :| 0 <= i < |ms| && ms[i].key == RK(t, q);
      EntryMutsKeys(t, t.defs, cells, pk, add, ms[i]);
      var d, tup :| d in t.defs && HasShape(t, d, tup) && ms[i].key == IK(t, d, tup, pk);
      RowAndEntryDistinct(t, q, d, tup, pk);
    }
  }

  // ---- The effect of a statement on one row ----

  /** The tuple a row contributes to index `d`: None for no row or a NULL column. */
  function TupleIn(t: Table, d: IndexDef, row: Option<seq<Datum>>): Option<seq<Value>>
    requires ColsOk(t, d.cols)
    requires row.Some? ==> |row.value| == |t.kinds|
  {
    if row.None? then None
    else match TupleOf(t, d.cols, row.value) { case Tuple(vs) => Some(vs) case _ => None }
  }

  /** `ms` replaces row `pk`, which was `prior`, by `next`, entries included, and touches nothing else
      of the table. */
  ghost predicate ReplacesRow(t: Table, ms: seq<Mutation>, pk: Bytes, prior: Option<seq<Datum>>,
                              next: Option<seq<Datum>>)
    requires TableOk(t) && (prior.Some? ==> |prior.value| == |t.kinds|) && (next.Some? ==> |next.value| == |t.kinds|)
  {
    && (forall q :: LastWrite(ms, RK(t, q)) ==
          if q != pk then None
          else if next.Some? then Some(Mutation(RK(t, q), RC.EncodeRow(next.value), false))
          else Some(Mutation(RK(t, q), [], true)))
    && (forall d, tup, q :: d in t.defs && HasShape(t, d, tup) ==>
          LastWrite(ms, IK(t, d, tup, q)) ==
          if q != pk then None
          else if TupleIn(t, d, next) == Some(tup) then Some(Mutation(IK(t, d, tup, q), pk, false))
          else if TupleIn(t, d, prior) == Some(tup) then Some(Mutation(IK(t, d, tup, q), [], true))
          else None)
    && (forall m :: m in ms ==> OwnForm(t, m.key))
  }

  /** The key is a row key or an entry key of the table. */
  ghost predicate OwnForm(t: Table, k: Key)
    requires TableOk(t)
  {
    (exists pk :: k == RK(t, pk)) || EntryForm(t, k)
  }

  ghost predicate EntryForm(t: Table, k: Key)
    requires TableOk(t)
  {
    exists d, tup, pk :: d in t.defs && HasShape(t, d, tup) && k == IK(t, d, tup, pk)
  }
}
