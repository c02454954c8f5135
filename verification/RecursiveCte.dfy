/** WITH RECURSIVE (engine/internal/executor/cte_recursive.go): the working-table loop, with UNION's
    duplicate removal by row signature (engine/internal/executor/cte.go). */
module RecursiveCte {
  import opened Bytes
  import RC = RowCodec

  type Row = seq<RC.Datum>

  const MAX_ITERATIONS: nat := 100_000
  const SEPARATOR: byte := 0x1F
  const NULL_MARK: Bytes := [0, 78, 0]

  // ---- Row signatures ----

  function CellKey(d: RC.Datum): Bytes {
    if d.Null? then NULL_MARK else d.text
  }

  function RowKey(r: Row): Bytes {
    if r == [] then [] else RowKey(r[..|r| - 1]) + CellKey(r[|r| - 1]) + [SEPARATOR]
  }

  /** `rowKey` appends the cells one by one. */
  method WriteRowKey(r: Row) returns (k: Bytes)
    ensures k == RowKey(r)
  {
    k := [];
    for i := 0 to |r|
      invariant k == RowKey(r[..i])
    {
      assert r[..i + 1][..i] == r[..i];
      if r[i].Null? {
        k := k + NULL_MARK;
      } else {
        k := k + r[i].text;
      }
      k := k + [SEPARATOR];
    }
    assert r[..|r|] == r;
  }

  /** No text holds a 0x00 or 0x1F byte. */
  predicate Clean(r: Row) {
    forall i :: 0 <= i < |r| && r[i].Text? ==> 0 !in r[i].text && SEPARATOR !in r[i].text
  }

  lemma {:induction false} CellKeyInjective(a: RC.Datum, b: RC.Datum)
    requires Clean([a]) && Clean([b]) && CellKey(a) == CellKey(b)
    ensures a == b
  {
    assert Clean([a]) ==> ([a][0].Text? ==> 0 !in a.text);
    assert Clean([b]) ==> ([b][0].Text? ==> 0 !in b.text);
    assert [0, 78, 0][0] == 0;
  }

  lemma {:induction false} LongerEndsInside(p: Bytes, x: Bytes, q: Bytes, y: Bytes)
    requires p + x == q + y && |p| < |q| && SEPARATOR !in x
    ensures q[|q| - 1] != SEPARATOR
  {
    assert (p + x)[|q| - 1] == x[|q| - 1 - |p|];
    assert (q + y)[|q| - 1] == q[|q| - 1];
  }

  /** The last separator-free piece of two equal strings is the same. */
  lemma {:induction false} LastPiece(p: Bytes, x: Bytes, q: Bytes, y: Bytes)
    requires SEPARATOR !in x && SEPARATOR !in y
    requires p == [] || p[|p| - 1] == SEPARATOR
    requires q == [] || q[|q| - 1] == SEPARATOR
    requires p + x == q + y
    ensures p == q && x == y
  {
    if |p| < |q| {
      LongerEndsInside(p, x, q, y);
    } else if |q| < |p| {
      LongerEndsInside(q, y, p, x);
    } else {
      assert p == (p + x)[..|p|] && q == (q + y)[..|q|] && x == (p + x)[|p|..] && y == (q + y)[|q|..];
    }
  }

  lemma {:induction false} KeyEnds(r: Row)
    ensures RowKey(r) == [] || RowKey(r)[|RowKey(r)| - 1] == SEPARATOR
    ensures RowKey(r) == [] <==> r == []
  {
  }

  predicate SeparatorFree(r: Row) {
    forall i :: 0 <= i < |r| ==> SEPARATOR !in CellKey(r[i])
  }

  /** Cells without separators can be read back off the signature. */
  lemma {:induction false} CellsReadBack(r: Row, s: Row)
    requires SeparatorFree(r) && SeparatorFree(s) && RowKey(r) == RowKey(s)
    ensures |r| == |s| && forall i :: 0 <= i < |r| ==> CellKey(r[i]) == CellKey(s[i])
  {
    hide CellKey;
    KeyEnds(r);
    KeyEnds(s);
    if r != [] && s != [] {
      var m, n := |r| - 1, |s| - 1;
      KeyEnds(r[..m]);
      KeyEnds(s[..n]);
      var a, b := RowKey(r[..m]) + CellKey(r[m]), RowKey(s[..n]) + CellKey(s[n]);
      assert a == RowKey(r)[..|RowKey(r)| - 1] && b == RowKey(s)[..|RowKey(s)| - 1];
      LastPiece(RowKey(r[..m]), CellKey(r[m]), RowKey(s[..n]), CellKey(s[n]));
      CellsReadBack(r[..m], s[..n]);
    }
  }

  /** On clean rows the signature determines the row. */
  lemma {:induction false} RowKeyInjective(r: Row, s: Row)
    requires Clean(r) && Clean(s)
    ensures RowKey(r) == RowKey(s) <==> r == s
  {
    if RowKey(r) == RowKey(s) {
      CellsReadBack(r, s);
      forall i | 0 <= i < |r| ensures r[i] == s[i] { CellKeyInjective(r[i], s[i]); }
    }
  }

  // ---- Which rows share their signature ----

  function Separators(b: Bytes): nat {
    if b == [] then 0 else Separators(b[..|b| - 1]) + if b[|b| - 1] == SEPARATOR then 1 else 0
  }

  lemma {:induction false} SeparatorsAppend(a: Bytes, b: Bytes)
    ensures Separators(a + b) == Separators(a) + Separators(b)
    decreases |b|
  {
    if b == [] {
      assert a + b == a;
    } else {
      SeparatorsAppend(a, b[..|b| - 1]);
      assert (a + b)[..|a + b| - 1] == a + b[..|b| - 1];
    }
  }

  lemma {:induction false} NoSeparators(b: Bytes)
    ensures Separators(b) == 0 <==> SEPARATOR !in b
  {
    if b != [] {
      NoSeparators(b[..|b| - 1]);
      assert b == b[..|b| - 1] + [b[|b| - 1]];
    }
  }

  /** One separator closes each cell; the rest are inside. */
  lemma {:induction false} SeparatorsOfKey(r: Row)
    ensures Separators(RowKey(r)) >= |r|
    ensures Separators(RowKey(r)) == |r| <==> SeparatorFree(r)
  {
    hide CellKey;
    if r != [] {
      var m := |r| - 1;
      SeparatorsOfKey(r[..m]);
      SeparatorsAppend(RowKey(r[..m]), CellKey(r[m]));
      SeparatorsAppend(RowKey(r[..m]) + CellKey(r[m]), [SEPARATOR]);
      NoSeparators(CellKey(r[m]));
      assert Separators([SEPARATOR]) == 1 by { assert [SEPARATOR][..0] == []; }
    }
  }

  lemma {:induction false} RowKeyAppend(r: Row, s: Row)
    ensures RowKey(r + s) == RowKey(r) + RowKey(s)
    decreases |s|
  {
    hide CellKey;
    if s == [] {
      assert r + s == r;
    } else {
      RowKeyAppend(r, s[..|s| - 1]);
      assert (r + s)[..|r + s| - 1] == r + s[..|s| - 1];
    }
  }

  lemma {:induction false} PairKey(c: RC.Datum, d: RC.Datum)
    ensures RowKey([c]) == CellKey(c) + [SEPARATOR]
    ensures RowKey([c, d]) == CellKey(c) + [SEPARATOR] + CellKey(d) + [SEPARATOR]
  {
    hide CellKey;
    assert [c][..0] == [] && [c, d][..1] == [c];
  }

  /** Replacing a stretch of cells by one with the same signature keeps the signature. */
  lemma {:induction false} SameStretch(r: Row, i: nat, j: nat, mid: Row)
    requires i <= j <= |r| && RowKey(mid) == RowKey(r[i..j])
    ensures RowKey(r[..i] + mid + r[j..]) == RowKey(r)
  {
    hide RowKey;
    var (a, b, c) := (r[..i], r[i..j], r[j..]);
    assert r == a + b + c;
    RowKeyAppend(a, mid);
    RowKeyAppend(a + mid, c);
    RowKeyAppend(a, b);
    RowKeyAppend(a + b, c);
  }

  /** Another row of the same width has the same signature. */
  ghost predicate HasTwin(r: Row) {
    exists s: Row :: IsTwin(r, s)
  }

  predicate IsTwin(r: Row, s: Row) {
    s != r && |s| == |r| && RowKey(s) == RowKey(r)
  }

  /** A cell that can be misread in a row of that width. */
  predicate Confusable(width: nat, d: RC.Datum) {
    d.Null? || d.text == NULL_MARK || (width >= 2 && SEPARATOR in d.text)
  }

  lemma {:induction false} NullTwin(r: Row, i: nat)
    requires i < |r| && (r[i].Null? || r[i].text == NULL_MARK)
    ensures HasTwin(r)
  {
    var d := if r[i].Null? then RC.Text(NULL_MARK) else RC.Null;
    PairKey(d, d);
    PairKey(r[i], r[i]);
    assert r[i..i + 1] == [r[i]];
    SameStretch(r, i, i + 1, [d]);
    var s := r[..i] + [d] + r[i + 1..];
    assert s[i] == d;
    assert IsTwin(r, s);
  }

  lemma {:induction false} SeparatorTwin(r: Row, i: nat)
    requires i < |r| && |r| >= 2 && r[i].Text? && SEPARATOR in r[i].text
    ensures HasTwin(r)
  {
    hide RowKey;
    var x := r[i].text;
    var p :| 0 <= p < |x| && x[p] == SEPARATOR;
    var u, v := x[..p], x[p + 1..];
    assert x == u + [SEPARATOR] + v;
    if i + 1 < |r| {
      MoveSeparator(r, i, RC.Text(u), RC.Text(v + [SEPARATOR] + CellKey(r[i + 1])));
    } else {
      MoveSeparator(r, i - 1, RC.Text(CellKey(r[i - 1]) + [SEPARATOR] + u), RC.Text(v));
    }
  }

  lemma {:induction false} MoveSeparator(r: Row, i: nat, c: RC.Datum, d: RC.Datum)
    requires i + 1 < |r| && (c != r[i] || d != r[i + 1])
    requires CellKey(c) + [SEPARATOR] + CellKey(d) == CellKey(r[i]) + [SEPARATOR] + CellKey(r[i + 1])
    ensures HasTwin(r)
  {
    hide RowKey, CellKey;
    PairKey(c, d);
    PairKey(r[i], r[i + 1]);
    assert r[i..i + 2] == [r[i], r[i + 1]];
    SameStretch(r, i, i + 2, [c, d]);
    var s := r[..i] + [c, d] + r[i + 2..];
    assert s[i] == c && s[i + 1] == d;
    assert IsTwin(r, s);
  }

  lemma {:induction false} PlainRowIsAlone(r: Row, s: Row)
    requires |s| == |r| && RowKey(s) == RowKey(r) && forall i :: 0 <= i < |r| ==> !Confusable(|r|, r[i])
    ensures s == r
  {
    if |r| == 1 {
      PairKey(r[0], r[0]);
      PairKey(s[0], s[0]);
      var k := RowKey(r);
      assert CellKey(r[0]) == k[..|k| - 1] && CellKey(s[0]) == k[..|k| - 1];
      assert r == [r[0]] && s == [s[0]];
    } else {
      SeparatorsOfKey(r);
      SeparatorsOfKey(s);
      CellsReadBack(r, s);
      forall i | 0 <= i < |r| ensures r[i] == s[i] { assert !Confusable(|r|, r[i]); }
    }
  }

  /** Exactly the rows that UNION can confuse with another of their width: the ones that hold a NULL, or
      the text that stands for it, or, with two columns or more, a separator inside a text. */
  lemma {:induction false} TwinIff(r: Row)
    ensures HasTwin(r) <==> exists i :: 0 <= i < |r| && Confusable(|r|, r[i])
  {
    hide RowKey;
    if i :| 0 <= i < |r| && Confusable(|r|, r[i]) {
      if r[i].Null? || r[i].text == NULL_MARK { NullTwin(r, i); } else { SeparatorTwin(r, i); }
    } else {
      forall s: Row | |s| == |r| && RowKey(s) == RowKey(r) ensures s == r { PlainRowIsAlone(r, s); }
    }
  }

  /** A separator inside a text makes two different rows look alike, and UNION drops the second. */
  lemma {:induction false} SignaturesCollide()
    ensures
      var r, s := [RC.Text([97, SEPARATOR]), RC.Text([98])], [RC.Text([97]), RC.Text([SEPARATOR, 98])];
      r != s && |r| == |s| && RowKey(r) == RowKey(s)
    ensures RowKey([RC.Null]) == RowKey([RC.Text(NULL_MARK)])
  {
    PairKey(RC.Text([97, SEPARATOR]), RC.Text([98]));
    PairKey(RC.Text([97]), RC.Text([SEPARATOR, 98]));
  }

  // ---- The recursive member ----

  /** Evaluating the recursive member on a working table; None is an evaluation error. */
  type Member = seq<Row> -> Option<seq<Row>>

  /** What one row contributes. */
  type Image = Row -> iset<Row>

  /** The member distributes over union: its rows are the images of the working rows. */
  ghost predicate Distributes(step: Member, img: Image) {
    forall w, out :: step(w) == Some(out) ==> forall y :: y in out <==> exists r :: r in w && y in img(r)
  }

  ghost predicate KeepsClean(img: Image) {
    forall r, y :: Clean(r) && y in img(r) ==> Clean(y)
  }

  /** Holds the base and, with each row, everything that row contributes. */
  ghost predicate Closed(base: seq<Row>, img: Image, c: iset<Row>) {
    && (forall r :: r in base ==> r in c)
    && (forall r, y :: r in c && y in img(r) ==> y in c)
  }

  ghost predicate InEveryClosed(base: seq<Row>, img: Image, x: Row) {
    forall c :: Closed(base, img, c) ==> x in c
  }

  ghost function Rows(rows: seq<Row>): iset<Row> {
    iset r | r in rows
  }

  /** The result is a fixpoint and lies in every other one. */
  ghost predicate LeastFixpoint(base: seq<Row>, img: Image, rows: seq<Row>) {
    Closed(base, img, Rows(rows)) && forall r :: r in rows ==> InEveryClosed(base, img, r)
  }

  // ---- UNION ----

  /** The rows not seen before, in order, and the signatures seen now. */
  method Fresh(rows: seq<Row>, seen: set<Bytes>) returns (added: seq<Row>, now: set<Bytes>)
    ensures now == seen + Keys(rows) == seen + Keys(added)
    ensures forall i :: 0 <= i < |added| ==> added[i] in rows && RowKey(added[i]) !in seen
    ensures forall i, j :: 0 <= i < j < |added| ==> RowKey(added[i]) != RowKey(added[j])
  {
    hide RowKey;
    added, now := [], seen;
    for i := 0 to |rows|
      invariant now == seen + Keys(rows[..i]) == seen + Keys(added)
      invariant forall k :: 0 <= k < |added| ==> added[k] in rows && RowKey(added[k]) !in seen
      invariant forall k, j :: 0 <= k < j < |added| ==> RowKey(added[k]) != RowKey(added[j])
    {
      KeysSnoc(rows[..i], rows[i]);
      assert rows[..i + 1] == rows[..i] + [rows[i]];
      var k := WriteRowKey(rows[i]);
      if k in now {
        continue;
      }
      KeysSnoc(added, rows[i]);
      added, now := added + [rows[i]], now + {k};
    }
    assert rows[..|rows|] == rows;
  }

  ghost function Keys(rows: seq<Row>): set<Bytes> {
    set i | 0 <= i < |rows| :: RowKey(rows[i])
  }

  lemma {:induction false} KeysSnoc(rows: seq<Row>, r: Row)
    ensures Keys(rows + [r]) == Keys(rows) + {RowKey(r)}
  {
    hide RowKey;
    var all := rows + [r];
    assert all[|rows|] == r;
    forall k | k in Keys(rows) ensures k in Keys(all) {
      var i :| 0 <= i < |rows| && RowKey(rows[i]) == k;
      assert all[i] == rows[i];
    }
  }

  lemma {:induction false} KeysConcat(a: seq<Row>, b: seq<Row>)
    ensures Keys(a + b) == Keys(a) + Keys(b)
  {
    hide RowKey;
    forall k | k in Keys(a) + Keys(b) ensures k in Keys(a + b) {
      if k in Keys(a) {
        var i :| 0 <= i < |a| && RowKey(a[i]) == k;
        assert (a + b)[i] == a[i];
      } else {
        var i :| 0 <= i < |b| && RowKey(b[i]) == k;
        assert (a + b)[|a| + i] == b[i];
      }
    }
  }

  /** The UNION loop between rounds. */
  ghost predicate LoopInv(base: seq<Row>, img: Image, result: seq<Row>, working: seq<Row>) {
    && base <= result
    && (forall r :: r in working ==> r in result)
    && (forall r :: r in result ==> Clean(r) && InEveryClosed(base, img, r))
    && (forall r, y :: r in result && y in img(r) ==> r in working || y in result)
    && (forall i, j :: 0 <= i < j < |result| && |base| <= j ==> result[i] != result[j])
  }

  lemma {:induction false} KeyMember(rows: seq<Row>, r: Row)
    requires Clean(r) && forall x :: x in rows ==> Clean(x)
    ensures RowKey(r) in Keys(rows) <==> r in rows
  {
    hide RowKey;
    if RowKey(r) in Keys(rows) {
      var i :| 0 <= i < |rows| && RowKey(rows[i]) == RowKey(r);
      RowKeyInjective(rows[i], r);
    }
    if r in rows {
      var i :| 0 <= i < |rows| && rows[i] == r;
    }
  }

  /** One round: the rows of the member, of which `added` are new. */
  lemma {:induction false} Round(base: seq<Row>, step: Member, img: Image, result: seq<Row>, working: seq<Row>,
                                 out: seq<Row>, added: seq<Row>)
    requires Distributes(step, img) && KeepsClean(img) && LoopInv(base, img, result, working)
    requires step(working) == Some(out)
    requires Keys(result) + Keys(out) == Keys(result) + Keys(added)
    requires forall i :: 0 <= i < |added| ==> added[i] in out && RowKey(added[i]) !in Keys(result)
    requires forall i, j :: 0 <= i < j < |added| ==> RowKey(added[i]) != RowKey(added[j])
    ensures LoopInv(base, img, result + added, added)
  {
    hide RowKey, Keys, InEveryClosed, Clean;
    forall y | y in out ensures Clean(y) && InEveryClosed(base, img, y) {
      var r :| r in working && y in img(r);
      ImageInEveryClosed(base, img, r, y);
    }
    forall y | y in out ensures y in result + added {
      KeyMember(result, y);
      KeyMember(added, y);
      KeyMember(out, y);
    }
    forall i | 0 <= i < |added| ensures added[i] !in result {
      KeyMember(result, added[i]);
    }
    forall r, y | r in result + added && y in img(r) ensures r in added || y in result + added {
      if r in working {
        assert y in out;
      }
    }
  }

  lemma {:induction false} ImageInEveryClosed(base: seq<Row>, img: Image, r: Row, y: Row)
    requires InEveryClosed(base, img, r) && y in img(r)
    ensures InEveryClosed(base, img, y)
  {
  }

  lemma {:induction false} Start(base: seq<Row>, img: Image)
    requires forall r :: r in base ==> Clean(r)
    ensures LoopInv(base, img, base, base)
  {
  }

  /** No working row contributes anything new. */
  lemma {:induction false} Finish(base: seq<Row>, img: Image, result: seq<Row>)
    requires LoopInv(base, img, result, [])
    ensures LeastFixpoint(base, img, result)
  {
    hide InEveryClosed, Clean;
    assert forall r :: r in base ==> r in result;
  }

  // ---- UNION ALL ----

  /** The rounds after `working`, concatenated, until one is empty or the cap is reached. */
  function Unfold(step: Member, working: seq<Row>, n: nat): Option<seq<Row>>
    decreases n
  {
    if n == 0 || working == [] then Some([])
    else match step(working)
      case None => None
      case Some(out) => match Unfold(step, out, n - 1)
        case None => None
        case Some(rest) => Some(out + rest)
  }

  function Concat(rounds: seq<seq<Row>>): seq<Row> {
    if rounds == [] then [] else rounds[0] + Concat(rounds[1..])
  }

  /** Each round is what the member makes of the one before it, which is not empty. */
  ghost predicate Rounds(step: Member, rounds: seq<seq<Row>>, n: nat) {
    && 0 < |rounds| <= n + 1
    && forall i :: 0 <= i < |rounds| - 1 ==> rounds[i] != [] && step(rounds[i]) == Some(rounds[i + 1])
  }

  /** No round follows the last one: it is empty, or the cap is reached. */
  ghost predicate Complete(rounds: seq<seq<Row>>, n: nat) {
    rounds != [] && (rounds[|rounds| - 1] == [] || |rounds| == n + 1)
  }

  /** The member fails on the last round. */
  ghost predicate Failing(step: Member, rounds: seq<seq<Row>>, n: nat) {
    rounds != [] && |rounds| <= n && rounds[|rounds| - 1] != [] && step(rounds[|rounds| - 1]) == None
  }

  /** UNION ALL of a recursive query, by its rounds. */
  lemma {:induction false} UnionAllMeans(step: Member, rounds: seq<seq<Row>>, n: nat)
    requires Rounds(step, rounds, n)
    ensures Complete(rounds, n) ==> Join(rounds[0], Unfold(step, rounds[0], n)) == Some(Concat(rounds))
    ensures Failing(step, rounds, n) ==> Join(rounds[0], Unfold(step, rounds[0], n)) == None
    decreases n
  {
    if |rounds| == 1 {
      assert rounds[1..] == [];
    } else {
      var rest := rounds[1..];
      assert forall i :: 0 <= i < |rest| ==> rest[i] == rounds[i + 1];
      UnionAllMeans(step, rest, n - 1);
      assert rest[0] == rounds[1] && rest[|rest| - 1] == rounds[|rounds| - 1];
    }
  }

  /** `r` is the concatenation of the rounds from `base` on, or None when one of them fails. */
  ghost predicate ByRounds(step: Member, base: seq<Row>, n: nat, r: Option<seq<Row>>) {
    forall w :: Rounds(step, w, n) && w[0] == base ==>
      (Complete(w, n) ==> r == Some(Concat(w))) && (Failing(step, w, n) ==> r == None)
  }

  lemma {:induction false} UnfoldByRounds(step: Member, base: seq<Row>, n: nat)
    ensures ByRounds(step, base, n, Join(base, Unfold(step, base, n)))
  {
    forall w | Rounds(step, w, n) && w[0] == base
      ensures Complete(w, n) ==> Join(base, Unfold(step, base, n)) == Some(Concat(w))
      ensures Failing(step, w, n) ==> Join(base, Unfold(step, base, n)) == None
    {
      UnionAllMeans(step, w, n);
    }
  }

  // ---- Counting rounds ----

  lemma {:induction false} DistinctCount(rows: seq<Row>, from: nat)
    requires from <= |rows|
    requires forall i, j :: 0 <= i < j < |rows| && from <= j ==> rows[i] != rows[j]
    ensures |set r | r in rows| == |set r | r in rows[..from]| + |rows| - from
  {
    var n := |rows| - 1;
    if from == |rows| {
      assert rows[..from] == rows;
    } else {
      DistinctCount(rows[..n], from);
      assert rows[..n][..from] == rows[..from];
      assert rows == rows[..n] + [rows[n]];
      assert (set r | r in rows) == (set r | r in rows[..n]) + {rows[n]};
    }
  }

  /** The loop adds rows of every closed set, so a finite one bounds the rows added. */
  lemma {:induction false} RowsBounded(base: seq<Row>, img: Image, result: seq<Row>, working: seq<Row>, c: set<Row>)
    requires LoopInv(base, img, result, working) && Closed(base, img, iset r | r in c)
    ensures |result| - |base| <= |c| - |set r | r in base|
  {
    hide Clean;
    DistinctCount(result, |base|);
    assert result[..|base|] == base;
    var all := set r | r in result;
    assert all <= c by {
      forall r | r in result ensures r in c { assert InEveryClosed(base, img, r); }
    }
    SubsetSize(all, c);
  }

  lemma {:induction false} SubsetSize<T>(a: set<T>, b: set<T>)
    requires a <= b
    ensures |a| <= |b|
  {
    assert b == a + (b - a);
  }

  // ---- The loop ----

  /** What UNION is promised for: a member that distributes over union, and clean rows. */
  ghost predicate UnionOk(base: seq<Row>, step: Member, img: Image) {
    Distributes(step, img) && KeepsClean(img) && forall r :: r in base ==> Clean(r)
  }

  /** The base, then distinct new rows of every closed set; a fixpoint when the loop stopped by itself. */
  ghost predicate UnionResult(base: seq<Row>, img: Image, result: seq<Row>, done: bool) {
    && base <= result
    && (forall i, j :: 0 <= i < j < |result| && |base| <= j ==> result[i] != result[j])
    && (forall r :: r in result ==> InEveryClosed(base, img, r))
    && (done ==> LeastFixpoint(base, img, result))
  }

  ghost predicate Distinct(rows: seq<Row>) {
    forall i, j :: 0 <= i < j < |rows| ==> rows[i] != rows[j]
  }

  /** UNION's result is free of duplicates if and only if the base is: the base is never deduplicated. */
  lemma {:induction false} UnionDistinctIff(base: seq<Row>, img: Image, result: seq<Row>, done: bool)
    requires UnionResult(base, img, result, done)
    ensures Distinct(result) <==> Distinct(base)
  {
    hide InEveryClosed, LeastFixpoint;
    forall i | 0 <= i < |base| ensures base[i] == result[i] {}
    if Distinct(base) {
      forall i, j | 0 <= i < j < |result| ensures result[i] != result[j] {
        if j < |base| { assert base[i] != base[j]; }
      }
    }
  }

  /** WITH RECURSIVE x AS (VALUES ('a'), ('a') UNION ...) keeps both rows, even if the member adds none. */
  lemma {:induction false} UnionKeepsBaseDuplicates(result: seq<Row>, done: bool)
    ensures
      var base, step, img: Image := [[RC.Text([97])], [RC.Text([97])]], (w: seq<Row>) => Some([]), (r: Row) => iset{};
      && UnionOk(base, step, img) && (UnionResult(base, img, result, done) ==> !Distinct(result))
  {
    var base, img: Image := [[RC.Text([97])], [RC.Text([97])]], (r: Row) => iset{};
    if UnionResult(base, img, result, done) {
      UnionDistinctIff(base, img, result, done);
      assert base[0] == base[1];
    }
  }

  function Join(a: seq<Row>, b: Option<seq<Row>>): Option<seq<Row>> {
    if b.None? then None else Some(a + b.value)
  }

  lemma {:induction false} JoinStep(a: seq<Row>, step: Member, working: seq<Row>, n: nat)
    requires n > 0 && working != []
    ensures Join(a, Unfold(step, working, n)) ==
      match step(working) case None => None case Some(out) => Join(a + out, Unfold(step, out, n - 1))
  {
    if step(working).Some? {
      var out := step(working).value;
      if Unfold(step, out, n - 1).Some? {
        assert a + (out + Unfold(step, out, n - 1).value) == a + out + Unfold(step, out, n - 1).value;
      }
    }
  }

  lemma {:induction false} UnionEnd(base: seq<Row>, img: Image, result: seq<Row>, working: seq<Row>, rounds: nat)
    requires LoopInv(base, img, result, working) && |result| - |base| + 1 >= rounds
    requires working != [] ==> |result| - |base| >= MAX_ITERATIONS
    ensures UnionResult(base, img, result, working == [])
    ensures forall c: set<Row> :: Closed(base, img, iset x | x in c) ==>
      rounds <= |c| + 1 && (|c| < MAX_ITERATIONS ==> working == [])
  {
    hide Clean, Closed, InEveryClosed;
    if working == [] {
      Finish(base, img, result);
    }
    forall c: set<Row> | Closed(base, img, iset x | x in c)
      ensures rounds <= |c| + 1 && (|c| < MAX_ITERATIONS ==> working == [])
    {
      RowsBounded(base, img, result, working, c);
    }
  }

  /** `evalRecursiveCTE`. `done` tells whether the loop stopped by itself, `rounds` how often the member ran. */
  method EvalRecursive(base: seq<Row>, step: Member, all: bool, ghost img: Image)
    returns (r: Option<seq<Row>>, ghost done: bool, ghost rounds: nat)
    ensures all ==> r == Join(base, Unfold(step, base, MAX_ITERATIONS))
    ensures all ==> ByRounds(step, base, MAX_ITERATIONS, r)
    ensures rounds <= MAX_ITERATIONS
    ensures (forall w :: step(w).Some?) ==> r.Some?
    ensures !all && UnionOk(base, step, img) && r.Some? ==> UnionResult(base, img, r.value, done)
    ensures !all && UnionOk(base, step, img) && r.Some? ==>
      forall c: set<Row> :: Closed(base, img, iset x | x in c) ==> rounds <= |c| + 1 && (|c| < MAX_ITERATIONS ==> done)
  {
    hide RowKey, LoopInv, Closed, UnionResult, Distributes, KeepsClean, Clean, Unfold, Keys, ByRounds;
    UnfoldByRounds(step, base, MAX_ITERATIONS);
    var result, working, seen := base, base, {};
    done, rounds := false, 0;
    ghost var ok := !all && UnionOk(base, step, img);
    if !all {
      var first;
      first, seen := Fresh(result, {});
    }
    if ok { Start(base, img); }
    var i := 0;
    while i < MAX_ITERATIONS && working != []
      invariant 0 <= i <= MAX_ITERATIONS && i <= rounds <= MAX_ITERATIONS
      invariant i < rounds ==> working == []
      invariant rounds <= i + 1
      invariant all ==>
        Join(base, Unfold(step, base, MAX_ITERATIONS)) == Join(result, Unfold(step, working, MAX_ITERATIONS - i))
      invariant !all ==> seen == Keys(result)
      invariant ok ==> LoopInv(base, img, result, working) && |result| - |base| >= i
      decreases MAX_ITERATIONS - i, |working|
    {
      var out := step(working);
      rounds := i + 1;
      if all {
        JoinStep(result, step, working, MAX_ITERATIONS - i);
      }
      if out.None? {
        return None, false, rounds;
      }
      if all {
        result, working, i := result + out.value, out.value, i + 1;
        continue;
      }
      var added;
      added, seen := Fresh(out.value, seen);
      if ok { Round(base, step, img, result, working, out.value, added); }
      KeysConcat(result, added);
      if added == [] {
        assert result + [] == result;
        working := [];
        continue;
      }
      result, working, i := result + added, added, i + 1;
    }
    done := working == [];
    if ok { UnionEnd(base, img, result, working, rounds); }
    if all { UnfoldEnd(step, working, MAX_ITERATIONS - i); }
    assert result + [] == result;
    r := Some(result);
  }

  lemma {:induction false} UnfoldEnd(step: Member, working: seq<Row>, n: nat)
    requires n == 0 || working == []
    ensures Unfold(step, working, n) == Some([])
  {
  }
}
