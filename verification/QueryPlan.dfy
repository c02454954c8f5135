/** The WHERE side of the index planner (engine/internal/executor/index_scan.go): which bounds and
    which plan are read off a predicate, and why re-applying the predicate makes them safe. */
module QueryPlan {
  import opened Bytes
  import opened OrderEncoding
  import opened IndexMaintenance
  import Decimal
  import RC = RowCodec

  type Row = seq<Datum>

  datatype CmpOp = Eq | Ne | Less | LessEq | Greater | GreaterEq

  /** A column of the scanned table, or a constant (None is NULL or an unbound parameter). */
  datatype Operand = Col(col: nat) | Const(val: Option<Value>)

  datatype Expr =
    | Cmp(op: CmpOp, left: Operand, right: Operand)
    | And(args: seq<Expr>)
    | Or(args: seq<Expr>)
    | Not(arg: Expr)

  // ---- Evaluation ----

  /** A cell by its column type; text that is no integer compares as 0. */
  function CellValue(kind: Kind, c: Datum): Option<Value> {
    if c.Null? then None
    else match Typed(kind, c.text) { case Some(v) => Some(v) case None => Some(Int(0)) }
  }

  function ColValue(t: Table, row: Row, col: nat): Option<Value> {
    if col < |row| && col < |t.kinds| then CellValue(t.kinds[col], row[col]) else None
  }

  function OperandValue(t: Table, row: Row, o: Operand): Option<Value> {
    match o { case Col(c) => ColValue(t, row, c) case Const(v) => v }
  }

  /** Comparisons are between values of one type; a NULL side or a type mismatch is unknown. */
  function Compare(op: CmpOp, a: Option<Value>, b: Option<Value>): Option<bool> {
    if a.None? || b.None? || !SameKind(a.value, b.value) then None
    else
      var lt, eq := OrderEncoding.Less(a.value, b.value), a.value == b.value;
      Some(match op
           case Eq => eq
           case Ne => !eq
           case Less => lt
           case LessEq => lt || eq
           case Greater => !lt && !eq
           case GreaterEq => !lt)
  }

  /** `eval` of a predicate: a comparison may be unknown; AND, OR and NOT take unknown for not true, and are not
      unknown themselves. */
  function Eval(t: Table, row: Row, e: Expr): Option<bool>
    decreases e, 0
  {
    match e
    case Cmp(op, l, r) => Compare(op, OperandValue(t, row, l), OperandValue(t, row, r))
    case And(args) => Some(EvalAnd(t, row, args))
    case Or(args) => Some(EvalOr(t, row, args))
    case Not(a) => Some(Eval(t, row, a) != Some(true))
  }

  /** The first argument that is not true decides. */
  predicate EvalAnd(t: Table, row: Row, args: seq<Expr>)
    decreases args, 1
  {
    args == [] || (Eval(t, row, args[0]) == Some(true) && EvalAnd(t, row, args[1..]))
  }

  /** The first argument that is true decides. */
  predicate EvalOr(t: Table, row: Row, args: seq<Expr>)
    decreases args, 1
  {
    args != [] && (Eval(t, row, args[0]) == Some(true) || EvalOr(t, row, args[1..]))
  }

  predicate Keeps(t: Table, where: Option<Expr>, row: Row) {
    where.None? || Eval(t, row, where.value) == Some(true)
  }

  // ---- What WHERE keeps ----

  /** OR keeps a row if and only if one of its arguments does. */
  lemma {:induction false} KeepsOr(t: Table, row: Row, args: seq<Expr>)
    ensures Keeps(t, Some(Or(args)), row) <==> exists i :: 0 <= i < |args| && Keeps(t, Some(args[i]), row)
  {
    OrHolds(t, row, args);
  }

  lemma {:induction false} OrHolds(t: Table, row: Row, args: seq<Expr>)
    ensures EvalOr(t, row, args) <==> exists i :: 0 <= i < |args| && Keeps(t, Some(args[i]), row)
  {
    if args != [] {
      OrHolds(t, row, args[1..]);
      if i :| 0 <= i < |args[1..]| && Keeps(t, Some(args[1..][i]), row) { assert args[i + 1] == args[1..][i]; }
      if i :| 1 <= i < |args| && Keeps(t, Some(args[i]), row) { assert args[1..][i - 1] == args[i]; }
    }
  }

  /** AND keeps a row if and only if every argument does. */
  lemma {:induction false} KeepsAnd(t: Table, row: Row, args: seq<Expr>)
    ensures Keeps(t, Some(And(args)), row) <==> forall i :: 0 <= i < |args| ==> Keeps(t, Some(args[i]), row)
  {
    AndHolds(t, row, args);
  }

  lemma {:induction false} AndHolds(t: Table, row: Row, args: seq<Expr>)
    ensures EvalAnd(t, row, args) <==> forall i :: 0 <= i < |args| ==> Keeps(t, Some(args[i]), row)
  {
    if args != [] {
      AndHolds(t, row, args[1..]);
      forall i | 0 <= i < |args[1..]| ensures args[1..][i] == args[i + 1] {}
      if EvalAnd(t, row, args) {
        forall i | 0 <= i < |args| ensures Keeps(t, Some(args[i]), row) {
          if i > 0 { assert args[1..][i - 1] == args[i]; }
        }
      }
    }
  }

  /** NOT keeps exactly the rows its argument does not keep, those among them that it leaves unknown. */
  lemma {:induction false} KeepsNot(t: Table, row: Row, e: Expr)
    ensures Keeps(t, Some(Not(e)), row) <==> !Keeps(t, Some(e), row)
  {
  }

  /** A row that `b = 1` leaves unknown is kept by NOT (b = 1). */
  lemma {:induction false} NotKeepsUnknown(t: Table, row: Row, col: nat, val: Value)
    requires col < |row| && row[col].Null?
    ensures var e := Cmp(Eq, Col(col), Const(Some(val)));
      Eval(t, row, e) == None && Keeps(t, Some(Not(e)), row)
  {
  }

  /** Each comparison by the order of values; none keeps a row when a side is NULL or the types differ. */
  lemma {:induction false} KeepsComparison(t: Table, row: Row, l: Operand, r: Operand)
    ensures
      var a, b := OperandValue(t, row, l), OperandValue(t, row, r);
      if a.Some? && b.Some? && SameKind(a.value, b.value) then
        var x, y := a.value, b.value;
        && (Keeps(t, Some(Cmp(Eq, l, r)), row) <==> x == y)
        && (Keeps(t, Some(Cmp(Ne, l, r)), row) <==> x != y)
        && (Keeps(t, Some(Cmp(Less, l, r)), row) <==> OrderEncoding.Less(x, y))
        && (Keeps(t, Some(Cmp(LessEq, l, r)), row) <==> !OrderEncoding.Less(y, x))
        && (Keeps(t, Some(Cmp(Greater, l, r)), row) <==> OrderEncoding.Less(y, x))
        && (Keeps(t, Some(Cmp(GreaterEq, l, r)), row) <==> !OrderEncoding.Less(x, y))
      else forall op :: !Keeps(t, Some(Cmp(op, l, r)), row)
  {
    var a, b := OperandValue(t, row, l), OperandValue(t, row, r);
    if a.Some? && b.Some? && SameKind(a.value, b.value) { LessTotal(a.value, b.value); }
  }

  /** On an integer column holding the number `v`, compared with the constant `n`: as numbers. */
  lemma {:induction false} IntegerComparison(t: Table, row: Row, col: nat, v: int64, n: int64)
    requires col < |row| && col < |t.kinds| && t.kinds[col] == KInt && row[col] == RC.Text(Decimal.FormatSigned(v))
    ensures
      var l, r := Col(col), Const(Some(Int(n)));
      && (Keeps(t, Some(Cmp(Eq, l, r)), row) <==> v == n) && (Keeps(t, Some(Cmp(Ne, l, r)), row) <==> v != n)
      && (Keeps(t, Some(Cmp(Less, l, r)), row) <==> v < n) && (Keeps(t, Some(Cmp(LessEq, l, r)), row) <==> v <= n)
      && (Keeps(t, Some(Cmp(Greater, l, r)), row) <==> v > n)
      && (Keeps(t, Some(Cmp(GreaterEq, l, r)), row) <==> v >= n)
  {
    hide Decimal.FormatSigned, Decimal.ParseInt64, Decimal.TrimSpace;
    Decimal.SignedRoundTrip(v);
    assert ColValue(t, row, col) == Some(Int(v));
  }

  /** A cell of an integer column that is no integer compares as the number 0. */
  lemma {:induction false} UnreadableIsZero(t: Table, row: Row, col: nat, n: int64)
    requires col < |row| && col < |t.kinds| && t.kinds[col] == KInt && row[col].Text?
    requires Decimal.ParseInt64(Decimal.TrimSpace(row[col].text)).None?
    ensures
      var l, r := Col(col), Const(Some(Int(n)));
      && (Keeps(t, Some(Cmp(Eq, l, r)), row) <==> n == 0) && (Keeps(t, Some(Cmp(Less, l, r)), row) <==> 0 < n)
      && (Keeps(t, Some(Cmp(Greater, l, r)), row) <==> 0 > n)
  {
    hide Decimal.ParseInt64, Decimal.TrimSpace;
    assert ColValue(t, row, col) == Some(Int(0));
  }

  /** On a boolean column holding t or f: f comes before t. */
  lemma {:induction false} BooleanComparison(t: Table, row: Row, col: nat, b: bool)
    requires col < |row| && col < |t.kinds| && t.kinds[col] == KBool && row[col] in [RC.Text([116]), RC.Text([102])]
    ensures
      var x, l, r := row[col] == RC.Text([116]), Col(col), Const(Some(Bool(b)));
      && (Keeps(t, Some(Cmp(Eq, l, r)), row) <==> x == b) && (Keeps(t, Some(Cmp(Less, l, r)), row) <==> !x && b)
  {
    assert Decimal.IsTruthy([116]) && !Decimal.IsTruthy([102]) by { Decimal.TrueAndFalse(); }
    hide Decimal.IsTruthy;
    assert ColValue(t, row, col) == Some(Bool(row[col] == RC.Text([116])));
  }

  /** On a text column, compared with a text constant: bytewise. */
  lemma {:induction false} TextComparison(t: Table, row: Row, col: nat, v: Bytes, c: Bytes)
    requires col < |row| && col < |t.kinds| && t.kinds[col] == KText && row[col] == RC.Text(v)
    ensures
      var l, r := Col(col), Const(Some(Value.Text(c)));
      && (Keeps(t, Some(Cmp(Eq, l, r)), row) <==> v == c) && (Keeps(t, Some(Cmp(Ne, l, r)), row) <==> v != c)
      && (Keeps(t, Some(Cmp(Less, l, r)), row) <==> Lt(v, c))
      && (Keeps(t, Some(Cmp(LessEq, l, r)), row) <==> v == c || Lt(v, c))
      && (Keeps(t, Some(Cmp(Greater, l, r)), row) <==> Lt(c, v))
      && (Keeps(t, Some(Cmp(GreaterEq, l, r)), row) <==> v == c || Lt(c, v))
  {
    LtTotal(v, c);
    LtIrreflexive(v);
    assert ColValue(t, row, col) == Some(Value.Text(v));
  }

  // ---- Bounds ----

  datatype Bounds = Bounds(col: nat, lo: Option<Value>, hi: Option<Value>)

  function FlipOp(op: CmpOp): CmpOp {
    match op
    case Greater => Less
    case GreaterEq => LessEq
    case Less => Greater
    case LessEq => GreaterEq
    case _ => op
  }

  function BoundFromComparison(e: Expr): Option<Bounds>
    requires e.Cmp?
  {
    if e.left.Col? && e.right.Const? then BoundOf(e.left.col, e.op, e.right.val)
    else if e.right.Col? && e.left.Const? then BoundOf(e.right.col, FlipOp(e.op), e.left.val)
    else None
  }

  function BoundOf(col: nat, op: CmpOp, val: Option<Value>): Option<Bounds> {
    if val.None? then None
    else match op
      case Eq => Some(Bounds(col, val, val))
      case Greater => Some(Bounds(col, val, None))
      case GreaterEq => Some(Bounds(col, val, None))
      case Less => Some(Bounds(col, None, val))
      case LessEq => Some(Bounds(col, None, val))
      case Ne => None
  }

  /** A later bound replaces an earlier one on the same side; it is not an intersection. */
  function MergeBounds(a: Bounds, b: Bounds): Bounds {
    Bounds(a.col, if b.lo.Some? then b.lo else a.lo, if b.hi.Some? then b.hi else a.hi)
  }

  function ExtractColBounds(e: Expr): Option<Bounds>
    decreases e, 0
  {
    match e
    case Cmp(_, _, _) => BoundFromComparison(e)
    case And(args) => ExtractFromAll(args)
    case _ => None
  }

  /** Every conjunct must bound the same column; no conjunct at all gives no bounds. */
  function ExtractFromAll(args: seq<Expr>): Option<Bounds>
    decreases args, 1
  {
    if args == [] then None
    else
      var n := |args| - 1;
      var b := ExtractColBounds(args[n]);
      if n == 0 || b.None? then b
      else
        var acc := ExtractFromAll(args[..n]);
        if acc.None? || acc.value.col != b.value.col then None else Some(MergeBounds(acc.value, b.value))
  }

  /** `col = const` conjuncts; a later equality on a column replaces an earlier one. */
  function CollectEqualities(e: Expr): map<nat, Value>
    decreases e, 0
  {
    match e
    case Cmp(_, _, _) =>
      var b := BoundFromComparison(e);
      if b.Some? && b.value.lo.Some? && b.value.lo == b.value.hi then map[b.value.col := b.value.lo.value] else map[]
    case And(args) => CollectFromAll(args)
    case _ => map[]
  }

  function CollectFromAll(args: seq<Expr>): map<nat, Value>
    decreases args, 1
  {
    if args == [] then map[] else CollectFromAll(args[..|args| - 1]) + CollectEqualities(args[|args| - 1])
  }

  // ---- Soundness: a row the predicate keeps satisfies every bound read off it ----

  predicate AtLeast(v: Value, lo: Option<Value>) {
    lo.Some? ==> SameKind(lo.value, v) && (lo.value == v || OrderEncoding.Less(lo.value, v))
  }

  predicate AtMost(v: Value, hi: Option<Value>) {
    hi.Some? ==> SameKind(v, hi.value) && (v == hi.value || OrderEncoding.Less(v, hi.value))
  }

  predicate Within(t: Table, row: Row, b: Bounds) {
    var v := ColValue(t, row, b.col);
    v.Some? && AtLeast(v.value, b.lo) && AtMost(v.value, b.hi)
  }

  lemma {:induction false} ConjunctsHold(t: Table, row: Row, args: seq<Expr>, i: nat)
    requires EvalAnd(t, row, args) && i < |args|
    ensures Eval(t, row, args[i]) == Some(true)
    decreases |args|
  {
    if i > 0 { ConjunctsHold(t, row, args[1..], i - 1); }
  }

  lemma {:induction false} ComparisonSound(t: Table, row: Row, e: Expr)
    requires e.Cmp? && Eval(t, row, e) == Some(true) && BoundFromComparison(e).Some?
    ensures Within(t, row, BoundFromComparison(e).value)
  {
    var b := BoundFromComparison(e).value;
    var v := ColValue(t, row, b.col).value;
    if b.lo.Some? { LessTotal(b.lo.value, v); }
    if b.hi.Some? { LessTotal(v, b.hi.value); }
  }

  lemma {:induction false} BoundsSound(t: Table, row: Row, e: Expr)
    requires Eval(t, row, e) == Some(true) && ExtractColBounds(e).Some?
    ensures Within(t, row, ExtractColBounds(e).value)
    decreases e, 0
  {
    match e
    case Cmp(_, _, _) => ComparisonSound(t, row, e);
    case And(args) =>
      forall i | 0 <= i < |args| ensures Eval(t, row, args[i]) == Some(true) {
        ConjunctsHold(t, row, args, i);
      }
      AllBoundsSound(t, row, args);
  }

  lemma {:induction false} AllBoundsSound(t: Table, row: Row, args: seq<Expr>)
    requires ExtractFromAll(args).Some?
    requires forall i :: 0 <= i < |args| ==> Eval(t, row, args[i]) == Some(true)
    ensures Within(t, row, ExtractFromAll(args).value)
    decreases args, 1
  {
    var n := |args| - 1;
    BoundsSound(t, row, args[n]);
    if n > 0 { AllBoundsSound(t, row, args[..n]); }
  }

  lemma {:induction false} EqualitiesSound(t: Table, row: Row, e: Expr, col: nat)
    requires Eval(t, row, e) == Some(true) && col in CollectEqualities(e)
    ensures ColValue(t, row, col) == Some(CollectEqualities(e)[col])
    decreases e, 0
  {
    match e
    case Cmp(_, _, _) =>
      ComparisonSound(t, row, e);
      var b := BoundFromComparison(e).value;
      LessTotal(b.lo.value, ColValue(t, row, col).value);
    case And(args) =>
      forall i | 0 <= i < |args| ensures Eval(t, row, args[i]) == Some(true) {
        ConjunctsHold(t, row, args, i);
      }
      AllEqualitiesSound(t, row, args, col);
  }

  lemma {:induction false} AllEqualitiesSound(t: Table, row: Row, args: seq<Expr>, col: nat)
    requires col in CollectFromAll(args)
    requires forall i :: 0 <= i < |args| ==> Eval(t, row, args[i]) == Some(true)
    ensures ColValue(t, row, col) == Some(CollectFromAll(args)[col])
    decreases args, 1
  {
    var n := |args| - 1;
    if col in CollectEqualities(args[n]) {
      EqualitiesSound(t, row, args[n], col);
    } else {
      AllEqualitiesSound(t, row, args[..n], col);
    }
  }

  // ---- Plans ----

  /** The ORDER BY clause: none, one ascending column, or anything else. */
  datatype Order = Unsorted | ByColumn(col: nat) | ByOther

  /** How the rows are fetched. An index range runs from the entries whose leading values are `lo` to
      those whose leading values are `hi`; `ordered` tells the caller to skip its own sort. */
  datatype Plan =
    | FullScan
    | PkGet(val: Value)
    | IndexRange(def: IndexDef, lo: seq<Value>, hi: seq<Value>, ordered: bool)

  /** The first index on exactly this column. */
  function FindExact(defs: seq<IndexDef>, col: nat): (r: Option<IndexDef>)
    ensures r.Some? ==> r.value in defs && r.value.cols == [col]
    ensures r.None? ==> forall d :: d in defs ==> d.cols != [col]
    decreases |defs|
  {
    if defs == [] then None else if defs[0].cols == [col] then Some(defs[0]) else FindExact(defs[1..], col)
  }

  /** The first index that has this column in front. */
  function FindLeading(defs: seq<IndexDef>, col: nat): (r: Option<IndexDef>)
    ensures r.Some? ==> r.value in defs && r.value.cols != [] && r.value.cols[0] == col
    ensures r.None? ==> forall d :: d in defs && d.cols != [] ==> d.cols[0] != col
    decreases |defs|
  {
    if defs == [] then None
    else if defs[0].cols != [] && defs[0].cols[0] == col then Some(defs[0])
    else FindLeading(defs[1..], col)
  }

  function FindIndexOn(defs: seq<IndexDef>, col: nat): (r: Option<IndexDef>)
    ensures r.Some? ==> r.value in defs && r.value.cols != [] && r.value.cols[0] == col
  {
    var exact := FindExact(defs, col);
    if exact.Some? then exact else FindLeading(defs, col)
  }

  /** The single pass of `findIndexOn`: a single-column index wins outright, else the first composite
      index with the column in front. */
  method FindIndex(defs: seq<IndexDef>, col: nat) returns (r: Option<IndexDef>)
    ensures r == FindIndexOn(defs, col)
  {
    r := None;
    var i := 0;
    assert defs[0..] == defs;
    while i < |defs|
      invariant 0 <= i <= |defs|
      invariant FindExact(defs, col) == FindExact(defs[i..], col)
      invariant FindLeading(defs, col) == if r.Some? then r else FindLeading(defs[i..], col)
    {
      var d := defs[i];
      assert defs[i..][0] == d && defs[i..][1..] == defs[i + 1..];
      if d.cols == [col] { return Some(d); }
      if r.None? && d.cols != [] && d.cols[0] == col { r := Some(d); }
      i := i + 1;
    }
  }

  predicate Covered(d: IndexDef, eq: set<nat>) {
    d.cols != [] && forall i :: 0 <= i < |d.cols| ==> d.cols[i] in eq
  }

  /** The widest index whose columns all have an equality, the first of equals. */
  function WidestCovered(defs: seq<IndexDef>, eq: set<nat>): (r: Option<IndexDef>)
    ensures r.Some? ==> r.value in defs && Covered(r.value, eq)
    ensures forall d :: d in defs && Covered(d, eq) ==> r.Some? && |d.cols| <= |r.value.cols|
    decreases |defs|
  {
    if defs == [] then None
    else
      var d := defs[|defs| - 1];
      assert defs == defs[..|defs| - 1] + [d];
      var best := WidestCovered(defs[..|defs| - 1], eq);
      if Covered(d, eq) && (best.None? || |d.cols| > |best.value.cols|) then Some(d) else best
  }

  /** The loop of `findIndexForEquality`. */
  method FindIndexForEquality(defs: seq<IndexDef>, eq: set<nat>) returns (r: Option<IndexDef>)
    ensures r == WidestCovered(defs, eq)
  {
    r := None;
    var i := 0;
    while i < |defs|
      invariant 0 <= i <= |defs|
      invariant r == WidestCovered(defs[..i], eq)
    {
      var d := defs[i];
      assert defs[..i + 1][..i] == defs[..i];
      var all := d.cols != [];
      var j := 0;
      while j < |d.cols| && all
        invariant 0 <= j <= |d.cols|
        invariant all ==> d.cols != [] && forall k :: 0 <= k < j ==> d.cols[k] in eq
        invariant !all ==> !Covered(d, eq)
      {
        if d.cols[j] !in eq { all := false; }
        j := j + 1;
      }
      if all && (r.None? || |d.cols| > |r.value.cols|) { r := Some(d); }
      i := i + 1;
    }
    assert defs[..|defs|] == defs;
  }

  /** The equality constants in index-column order. */
  function TupleFor(eq: map<nat, Value>, cols: seq<nat>): (r: seq<Value>)
    requires forall i :: 0 <= i < |cols| ==> cols[i] in eq
    ensures |r| == |cols| && forall i :: 0 <= i < |r| ==> r[i] == eq[cols[i]]
  {
    seq(|cols|, i requires 0 <= i < |cols| => eq[cols[i]])
  }

  /** `tryCompositeEquality`: equality on every column of a multi-column index. */
  function CompositePlan(t: Table, where: Expr): Option<Plan> {
    var eq := CollectEqualities(where);
    var d := WidestCovered(t.defs, eq.Keys);
    if |eq| < 2 || d.None? || |d.value.cols| < 2 then None
    else
      var tup := TupleFor(eq, d.value.cols);
      Some(IndexRange(d.value, tup, tup, false))
  }

  /** `trySingleColEquality`: the column equalities that a single-column index could serve. The
      planner takes whichever the map iteration yields first, so all of them are allowed plans. */
  ghost predicate EqualityPlan(t: Table, where: Expr, p: Plan) {
    && p.IndexRange? && !p.ordered && |p.def.cols| == 1
    && p.def.cols[0] in CollectEqualities(where) && FindExact(t.defs, p.def.cols[0]) == Some(p.def)
    && p.lo == [CollectEqualities(where)[p.def.cols[0]]] && p.hi == p.lo
  }

  function Ends(v: Option<Value>): seq<Value> {
    if v.Some? then [v.value] else []
  }

  /** The plan from bounds and an ascending ORDER BY column, when no equality plan applies. */
  function BoundsPlan(t: Table, where: Option<Expr>, order: Order): Plan {
    var b := if where.Some? then ExtractColBounds(where.value) else None;
    var orderOK := order.ByColumn? && (b.None? || b.value.col == order.col);
    if b.None? && !orderOK then FullScan
    else
      var col := if b.Some? then b.value.col else order.col;
      if b.Some? && !orderOK && col == t.pk && b.value.lo.Some? && b.value.lo == b.value.hi
      then PkGet(b.value.lo.value)
      else match FindIndexOn(t.defs, col)
        case None => FullScan
        case Some(d) =>
          if b.None? then IndexRange(d, [], [], orderOK)
          else IndexRange(d, Ends(b.value.lo), Ends(b.value.hi), orderOK)
  }

  /** `planIndexScan` for a table whose indexes are full and on plain columns. */
  ghost predicate Plans(t: Table, where: Option<Expr>, order: Order, p: Plan) {
    if order.Unsorted? && where.Some? && CompositePlan(t, where.value).Some?
    then p == CompositePlan(t, where.value).value
    else if order.Unsorted? && where.Some? && exists q :: EqualityPlan(t, where.value, q)
    then EqualityPlan(t, where.value, p)
    else p == BoundsPlan(t, where, order)
  }

  /** An equality of a column with a constant, either way round, is collected from any place in a conjunction. */
  lemma {:induction false} EqualityCollected(args: seq<Expr>, i: nat, col: nat, x: Value)
    requires i < |args|
    requires args[i] == Cmp(Eq, Col(col), Const(Some(x))) || args[i] == Cmp(Eq, Const(Some(x)), Col(col))
    ensures col in CollectEqualities(And(args))
    decreases |args|
  {
    var n := |args| - 1;
    assert CollectEqualities(And(args)) == CollectFromAll(args[..n]) + CollectEqualities(args[n]);
    if i < n {
      EqualityCollected(args[..n], i, col, x);
      assert CollectEqualities(And(args[..n])) == CollectFromAll(args[..n]);
    }
  }

  /** With an equality on every column of a composite index, the plan reads one tuple of an index at least as wide. */
  lemma {:induction false} CompositeIndexUsed(t: Table, where: Expr, d: IndexDef, p: Plan)
    requires Plans(t, Some(where), Unsorted, p)
    requires d in t.defs && |d.cols| >= 2 && d.cols[0] != d.cols[1]
    requires forall i :: 0 <= i < |d.cols| ==> d.cols[i] in CollectEqualities(where)
    ensures p.IndexRange? && |p.def.cols| >= |d.cols| && p.lo == p.hi && |p.lo| == |p.def.cols|
    ensures forall i :: 0 <= i < |p.lo| ==>
      p.def.cols[i] in CollectEqualities(where) && p.lo[i] == CollectEqualities(where)[p.def.cols[i]]
  {
    hide CollectEqualities, WidestCovered;
    var eq := CollectEqualities(where);
    assert Covered(d, eq.Keys);
    assert {d.cols[0], d.cols[1]} <= eq.Keys;
    SetSize({d.cols[0], d.cols[1]}, eq.Keys);
    assert |eq| == |eq.Keys|;
  }

  lemma {:induction false} SetSize(a: set<nat>, b: set<nat>)
    requires a <= b
    ensures |a| <= |b|
  {
    assert b == a + (b - a);
  }

  lemma {:induction false} SingleIndexUsed(t: Table, where: Expr, d: IndexDef, p: Plan)
    requires Plans(t, Some(where), Unsorted, p) && d in t.defs
    requires |d.cols| == 1 && d.cols[0] in CollectEqualities(where)
    ensures p.IndexRange?
  {
    hide CollectEqualities, WidestCovered;
    var c := d.cols[0];
    var x := [CollectEqualities(where)[c]];
    assert d.cols == [c];
    assert EqualityPlan(t, where, IndexRange(FindExact(t.defs, c).value, x, x, false));
  }

  /** What plans are for: the table is scanned in full only when no index could serve the bounds, the ORDER BY column
      or the equalities of the query. */
  lemma {:induction false} FullScanOnlyIf(t: Table, where: Option<Expr>, order: Order, d: IndexDef)
    requires Plans(t, where, order, FullScan)
    requires d in t.defs && d.cols != [] && (|d.cols| > 1 ==> d.cols[0] != d.cols[1])
    ensures where.Some? && ExtractColBounds(where.value).Some? ==> ExtractColBounds(where.value).value.col != d.cols[0]
    ensures order.ByColumn? && (where.None? || ExtractColBounds(where.value).None?) ==> order.col != d.cols[0]
    ensures order.Unsorted? && where.Some? ==>
      exists i :: 0 <= i < |d.cols| && d.cols[i] !in CollectEqualities(where.value)
  {
    hide CollectEqualities, WidestCovered, ExtractColBounds;
    if order.Unsorted? && where.Some? && forall i :: 0 <= i < |d.cols| ==> d.cols[i] in CollectEqualities(where.value) {
      if |d.cols| > 1 {
        CompositeIndexUsed(t, where.value, d, FullScan);
      } else {
        SingleIndexUsed(t, where.value, d, FullScan);
      }
    }
  }

  /** The plan is driven by WHERE, not by ORDER BY alone. */
  ghost predicate WhereDriven(t: Table, where: Option<Expr>, p: Plan) {
    p.IndexRange? ==> where.Some? && DrivenBy(t, where.value, p)
  }

  ghost predicate DrivenBy(t: Table, where: Expr, p: Plan) {
    ExtractColBounds(where).Some? || EqualityPlan(t, where, p) || CompositePlan(t, where) == Some(p)
  }

  // ---- Soundness of plans ----

  /** The values of `lo` are of the types of the leading columns. */
  ghost predicate Fits(t: Table, d: IndexDef, lo: seq<Value>)
    requires ColsOk(t, d.cols)
  {
    |lo| <= |d.cols| && forall i :: 0 <= i < |lo| ==> KindOf(lo[i]) == t.kinds[d.cols[i]]
  }

  /** A tuple of the index lies between the ends, by its leading values. */
  ghost predicate InRange(t: Table, d: IndexDef, tup: seq<Value>, lo: seq<Value>, hi: seq<Value>)
    requires ColsOk(t, d.cols) && HasShape(t, d, tup) && Fits(t, d, lo) && Fits(t, d, hi)
  {
    !TupleLess(tup[..|lo|], lo) && !TupleLess(hi, tup[..|hi|])
  }

  /** A row's values in the columns of an index, none of them NULL. */
  ghost predicate HasTuple(t: Table, d: IndexDef, row: Row, tup: seq<Value>) {
    |tup| == |d.cols| && forall i :: 0 <= i < |tup| ==> ColValue(t, row, d.cols[i]) == Some(tup[i])
  }

  lemma {:induction false} PlanIndexOk(t: Table, where: Option<Expr>, order: Order, p: Plan)
    requires Plans(t, where, order, p) && p.IndexRange?
    ensures p.def in t.defs && p.def.cols != []
    ensures p.ordered ==> order == ByColumn(p.def.cols[0])
  {
    if where.Some? && CompositePlan(t, where.value) == Some(p) {
      assert p.def.cols != [];
    }
  }

  lemma {:induction false} OrderOnlyShape(t: Table, where: Option<Expr>, order: Order, p: Plan)
    requires Plans(t, where, order, p) && p.IndexRange? && !WhereDriven(t, where, p)
    ensures p.lo == [] && p.hi == [] && p.ordered
  {
  }

  /** Every row the predicate keeps lies within the ends of the plan's range, by its index columns. */
  lemma {:induction false} PlanBoundsSound(t: Table, where: Expr, order: Order, p: Plan, row: Row, tup: seq<Value>)
    requires TableOk(t) && Plans(t, Some(where), order, p) && p.IndexRange? && WhereDriven(t, Some(where), p)
    requires Eval(t, row, where) == Some(true)
    requires p.def in t.defs && HasShape(t, p.def, tup) && HasTuple(t, p.def, row, tup)
    ensures Fits(t, p.def, p.lo) && Fits(t, p.def, p.hi) && InRange(t, p.def, tup, p.lo, p.hi)
  {
    if CompositePlan(t, where) == Some(p) {
      forall i | 0 <= i < |tup| ensures tup[i] == p.lo[i] {
        EqualitiesSound(t, row, where, p.def.cols[i]);
      }
      EqualRange(t, p.def, tup, p.lo, p.hi);
    } else if EqualityPlan(t, where, p) {
      EqualitiesSound(t, row, where, p.def.cols[0]);
      assert tup[0] == p.lo[0];
      EqualRange(t, p.def, tup, p.lo, p.hi);
    } else {
      BoundsSound(t, row, where);
      WithinRange(t, p.def, row, ExtractColBounds(where).value, tup);
    }
  }

  lemma {:induction false} EqualRange(t: Table, d: IndexDef, tup: seq<Value>, lo: seq<Value>, hi: seq<Value>)
    requires ColsOk(t, d.cols) && HasShape(t, d, tup) && lo == hi && |lo| == |tup|
    requires forall i :: 0 <= i < |tup| ==> tup[i] == lo[i]
    ensures Fits(t, d, lo) && Fits(t, d, hi) && InRange(t, d, tup, lo, hi)
  {
    assert tup == lo && tup[..|lo|] == tup;
    assert SameShape(tup, tup);
    TupleLessTotal(tup, tup);
  }

  lemma {:induction false} WithinRange(t: Table, d: IndexDef, row: Row, b: Bounds, tup: seq<Value>)
    requires ColsOk(t, d.cols) && HasShape(t, d, tup) && HasTuple(t, d, row, tup)
    requires d.cols != [] && d.cols[0] == b.col && Within(t, row, b)
    ensures Fits(t, d, Ends(b.lo)) && Fits(t, d, Ends(b.hi)) && InRange(t, d, tup, Ends(b.lo), Ends(b.hi))
  {
    hide ColValue;
    assert ColValue(t, row, d.cols[0]) == Some(tup[0]);
    var x := tup[0];
    if b.lo.Some? {
      LessTotal(b.lo.value, x);
      LessTotal(x, b.lo.value);
      OneColumn(tup[..1], [b.lo.value]);
    }
    if b.hi.Some? {
      LessTotal(x, b.hi.value);
      LessTotal(b.hi.value, x);
      OneColumn([b.hi.value], tup[..1]);
    }
  }

  lemma {:induction false} OneColumn(a: seq<Value>, b: seq<Value>)
    requires |a| == 1 && |b| == 1 && SameKind(a[0], b[0])
    ensures TupleLess(a, b) <==> OrderEncoding.Less(a[0], b[0])
  {
    assert a[1..] == [] && b[1..] == [];
  }

  /** A constant on the left: the turned-round comparison keeps the same rows. */
  lemma {:induction false} FlippedKeeps(t: Table, row: Row, op: CmpOp, l: Operand, r: Operand)
    ensures Keeps(t, Some(Cmp(op, l, r)), row) <==> Keeps(t, Some(Cmp(FlipOp(op), r, l)), row)
  {
    hide Keeps, OperandValue;
    KeepsComparison(t, row, l, r);
    KeepsComparison(t, row, r, l);
  }

  function Versus(op: CmpOp, col: nat, x: Value): Expr {
    Cmp(op, Col(col), Const(Some(x)))
  }

  /** A range keeps both ends whichever end comes first and on whichever side its constant stands; of two bounds on the
      same end the later one wins. */
  lemma {:induction false} MergedBounds(col: nat, x: Value, y: Value)
    ensures ExtractColBounds(And([Versus(GreaterEq, col, x), Versus(Less, col, y)])) ==
            ExtractColBounds(And([Cmp(Greater, Const(Some(y)), Col(col)), Versus(Greater, col, x)])) ==
            Some(Bounds(col, Some(x), Some(y)))
    ensures ExtractColBounds(And([Versus(GreaterEq, col, x), Versus(Greater, col, y)])) ==
            Some(Bounds(col, Some(y), None))
    ensures ExtractColBounds(And([Versus(LessEq, col, x), Versus(Less, col, y)])) == Some(Bounds(col, None, Some(y)))
  {
    TwoConjuncts(Versus(GreaterEq, col, x), Versus(Less, col, y));
    TwoConjuncts(Cmp(Greater, Const(Some(y)), Col(col)), Versus(Greater, col, x));
    TwoConjuncts(Versus(GreaterEq, col, x), Versus(Greater, col, y));
    TwoConjuncts(Versus(LessEq, col, x), Versus(Less, col, y));
  }

  lemma {:induction false} TwoConjuncts(e: Expr, f: Expr)
    requires e.Cmp? && f.Cmp?
    ensures ExtractColBounds(And([e, f])) ==
      var acc, b := BoundFromComparison(e), BoundFromComparison(f);
      if acc.None? || b.None? || acc.value.col != b.value.col then None else Some(MergeBounds(acc.value, b.value))
  {
    hide BoundFromComparison, MergeBounds;
    assert [e, f][..1] == [e] && [e][..0] == [];
    assert ExtractColBounds(e) == BoundFromComparison(e) && ExtractColBounds(f) == BoundFromComparison(f);
    assert ExtractFromAll([e]) == ExtractColBounds(e);
    assert ExtractColBounds(And([e, f])) == ExtractFromAll([e, f]);
  }

  /** The merged bounds need not be the tightest. */
  lemma {:induction false} MergedBoundsMayBeLoose()
    ensures ExtractColBounds(And([Versus(GreaterEq, 0, Int(5)), Versus(GreaterEq, 0, Int(1))])) ==
            Some(Bounds(0, Some(Int(1)), None))
  {
    TwoConjuncts(Versus(GreaterEq, 0, Int(5)), Versus(GreaterEq, 0, Int(1)));
  }
}
