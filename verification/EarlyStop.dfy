/** LIMIT under an index scan (engine/internal/executor/index_scan.go, join.go, agg.go): a SELECT with ORDER BY,
    LIMIT and no WHERE stops the index scan early, but row-level security, grouping and window functions run
    between that scan and the LIMIT. For which queries stopping early changes nothing. */
module EarlyStop {
  import opened Bytes
  import opened IndexMaintenance
  import opened QueryPlan
  import opened IndexScan
  import MI = MergeIterator
  import RC = RowCodec

  // ---- What runs between the scan and the LIMIT ----

  /** A plain select list; count(*) alone; count(*) with GROUP BY; count(*) OVER (PARTITION BY ...). */
  datatype Tail = Plain | Total | Grouped(key: Row -> Bytes) | Windowed(key: Row -> Bytes)

  datatype Out = Cells(row: Row) | Group(key: Bytes, count: nat) | Over(row: Row, count: nat)

  /** `applyRLSSelect`. */
  function Visible(policy: Row -> bool, rows: seq<Row>): (r: seq<Row>)
    ensures |r| <= |rows|
  {
    if rows == [] then []
    else
      var n := |rows| - 1;
      Visible(policy, rows[..n]) + if policy(rows[n]) then [rows[n]] else []
  }

  /** The group keys in first-seen order. */
  function GroupKeys(key: Row -> Bytes, rows: seq<Row>): seq<Bytes> {
    if rows == [] then []
    else
      var n := |rows| - 1;
      var ks := GroupKeys(key, rows[..n]);
      if key(rows[n]) in ks then ks else ks + [key(rows[n])]
  }

  /** The rows of one group. */
  function Members(key: Row -> Bytes, rows: seq<Row>, k: Bytes): seq<Row> {
    if rows == [] then []
    else
      var n := |rows| - 1;
      Members(key, rows[..n], k) + if key(rows[n]) == k then [rows[n]] else []
  }

  function GroupCounts(key: Row -> Bytes, rows: seq<Row>): (r: seq<Out>)
    ensures |r| == |GroupKeys(key, rows)|
  {
    var ks := GroupKeys(key, rows);
    seq(|ks|, i requires 0 <= i < |ks| => Group(ks[i], |Members(key, rows, ks[i])|))
  }

  function PartitionCounts(key: Row -> Bytes, rows: seq<Row>): (r: seq<Out>)
    ensures |r| == |rows|
  {
    seq(|rows|, i requires 0 <= i < |rows| => Over(rows[i], |Members(key, rows, key(rows[i]))|))
  }

  /** Without GROUP BY there is one group, even of no rows. */
  function Outputs(tail: Tail, rows: seq<Row>): seq<Out> {
    match tail
    case Plain => seq(|rows|, i requires 0 <= i < |rows| => Cells(rows[i]))
    case Total => [Group([], |rows|)]
    case Grouped(key) => GroupCounts(key, rows)
    case Windowed(key) => PartitionCounts(key, rows)
  }

  function FirstOf(outs: seq<Out>, n: nat): seq<Out> {
    if |outs| <= n then outs else outs[..n]
  }

  /** The result of the statement, from the rows the scan delivers. */
  function Answer(tail: Tail, policy: Row -> bool, rows: seq<Row>, n: nat): seq<Out> {
    FirstOf(Outputs(tail, Visible(policy, rows)), n)
  }

  /** The keys in first-seen order, and each key's rows. */
  ghost predicate Partitioned(key: Row -> Bytes, rows: seq<Row>, order: seq<Bytes>, groups: map<Bytes, seq<Row>>) {
    && order == GroupKeys(key, rows)
    && (forall k :: k in groups <==> k in order)
    && (forall k :: k in groups ==> groups[k] == Members(key, rows, k))
  }

  /** The buckets of `execAggregate`: a map and the order its keys were first seen in. */
  method PartitionRows(key: Row -> Bytes, rows: seq<Row>) returns (order: seq<Bytes>, groups: map<Bytes, seq<Row>>)
    ensures Partitioned(key, rows, order, groups)
  {
    order, groups := [], map[];
    assert rows[..0] == [] && Partitioned(key, [], [], map[]);
    hide Partitioned;
    for i := 0 to |rows|
      invariant Partitioned(key, rows[..i], order, groups)
    {
      OneMoreRow(key, rows, i, order, groups);
      var k := key(rows[i]);
      if k in groups {
        groups := groups[k := groups[k] + [rows[i]]];
      } else {
        groups := groups[k := [rows[i]]];
        order := order + [k];
      }
    }
    assert rows[..|rows|] == rows;
  }

  lemma {:induction false} OneMoreRow(key: Row -> Bytes, rows: seq<Row>, i: nat, order: seq<Bytes>,
                                      groups: map<Bytes, seq<Row>>)
    requires i < |rows| && Partitioned(key, rows[..i], order, groups)
    ensures var k := key(rows[i]);
      if k in groups then Partitioned(key, rows[..i + 1], order, groups[k := groups[k] + [rows[i]]])
      else Partitioned(key, rows[..i + 1], order + [k], groups[k := [rows[i]]])
  {
    hide GroupKeys, Members;
    GroupKeysSnoc(key, rows, i);
    var r := rows[i];
    if key(r) !in groups { NoMembers(key, rows[..i], key(r)); }
    forall k | k in groups || k == key(r)
      ensures Members(key, rows[..i + 1], k) == Members(key, rows[..i], k) + if key(r) == k then [r] else []
    {
      MembersSnoc(key, rows, i, k);
    }
  }

  lemma {:induction false} GroupKeysSnoc(key: Row -> Bytes, rows: seq<Row>, i: nat)
    requires i < |rows|
    ensures
      var ks, k := GroupKeys(key, rows[..i]), key(rows[i]);
      GroupKeys(key, rows[..i + 1]) == if k in ks then ks else ks + [k]
  {
    assert rows[..i + 1][..i] == rows[..i];
  }

  lemma {:induction false} MembersSnoc(key: Row -> Bytes, rows: seq<Row>, i: nat, k: Bytes)
    requires i < |rows|
    ensures Members(key, rows[..i + 1], k) ==
      Members(key, rows[..i], k) + if key(rows[i]) == k then [rows[i]] else []
  {
    assert rows[..i + 1][..i] == rows[..i];
  }

  // ---- Prefixes ----

  lemma {:induction false} VisiblePrefix(policy: Row -> bool, p: seq<Row>, s: seq<Row>)
    requires p <= s
    ensures Visible(policy, p) <= Visible(policy, s)
    decreases |s|
  {
    if p == s {
    } else {
      var n := |s| - 1;
      assert p <= s[..n];
      VisiblePrefix(policy, p, s[..n]);
    }
  }

  lemma {:induction false} GroupKeysPrefix(key: Row -> Bytes, p: seq<Row>, s: seq<Row>)
    requires p <= s
    ensures GroupKeys(key, p) <= GroupKeys(key, s)
    decreases |s|
  {
    if p == s {
    } else {
      var n := |s| - 1;
      assert p <= s[..n];
      GroupKeysPrefix(key, p, s[..n]);
    }
  }

  lemma {:induction false} GroupKeysContain(key: Row -> Bytes, rows: seq<Row>, k: Bytes)
    ensures k in GroupKeys(key, rows) <==> exists i :: 0 <= i < |rows| && key(rows[i]) == k
  {
    if rows != [] {
      var n := |rows| - 1;
      GroupKeysContain(key, rows[..n], k);
      if i :| 0 <= i < n && key(rows[i]) == k { assert rows[..n][i] == rows[i]; }
      if i :| 0 <= i < n && key(rows[..n][i]) == k { assert rows[..n][i] == rows[i]; }
    }
  }

  /** There are no more groups than rows, and as many exactly when the keys are all different. */
  lemma {:induction false} GroupKeysCount(key: Row -> Bytes, rows: seq<Row>)
    ensures |GroupKeys(key, rows)| <= |rows|
    ensures |GroupKeys(key, rows)| == |rows| <==> Different(key, rows)
  {
    if rows != [] {
      var n := |rows| - 1;
      GroupKeysCount(key, rows[..n]);
      GroupKeysContain(key, rows[..n], key(rows[n]));
      DifferentSnoc(key, rows);
    }
  }

  ghost predicate Different(key: Row -> Bytes, rows: seq<Row>) {
    forall i, j :: 0 <= i < j < |rows| ==> key(rows[i]) != key(rows[j])
  }

  lemma {:induction false} DifferentSnoc(key: Row -> Bytes, rows: seq<Row>)
    requires rows != []
    ensures var n := |rows| - 1;
      Different(key, rows) <==>
      Different(key, rows[..n]) && !exists i :: 0 <= i < |rows[..n]| && key(rows[..n][i]) == key(rows[n])
  {
    var n := |rows| - 1;
    forall i | 0 <= i < n ensures rows[..n][i] == rows[i] {}
    if Different(key, rows) {
      forall i, j | 0 <= i < j < n ensures key(rows[..n][i]) != key(rows[..n][j]) {
        assert rows[..n][i] == rows[i] && rows[..n][j] == rows[j];
      }
    }
    if Different(key, rows[..n]) && !exists i :: 0 <= i < |rows[..n]| && key(rows[..n][i]) == key(rows[n]) {
      forall i, j | 0 <= i < j < |rows| ensures key(rows[i]) != key(rows[j]) {
        assert rows[..n][i] == rows[i];
        if j < n { assert rows[..n][j] == rows[j]; }
      }
    }
  }

  /** A group grows with the rows, and stays as it is exactly when its key does not come again. */
  lemma {:induction false} MembersPrefix(key: Row -> Bytes, p: seq<Row>, s: seq<Row>, k: Bytes)
    requires p <= s
    ensures Members(key, p, k) <= Members(key, s, k)
    ensures |Members(key, p, k)| == |Members(key, s, k)| <==> !Again(key, |p|, s, k)
    decreases |s|
  {
    if p == s {
    } else {
      var n := |s| - 1;
      assert p <= s[..n];
      MembersPrefix(key, p, s[..n], k);
      AgainSnoc(key, |p|, s, k);
    }
  }

  /** Some row from position `m` on has the key. */
  ghost predicate Again(key: Row -> Bytes, m: nat, s: seq<Row>, k: Bytes) {
    exists j :: m <= j < |s| && key(s[j]) == k
  }

  lemma {:induction false} AgainSnoc(key: Row -> Bytes, m: nat, s: seq<Row>, k: Bytes)
    requires m < |s|
    ensures var n := |s| - 1; Again(key, m, s, k) <==> Again(key, m, s[..n], k) || key(s[n]) == k
  {
    var n := |s| - 1;
    if j :| m <= j < |s| && key(s[j]) == k { assert j < n ==> s[..n][j] == s[j]; }
    if j :| m <= j < n && key(s[..n][j]) == k { assert s[..n][j] == s[j]; }
  }

  // ---- When stopping early is harmless ----

  /** No row of the prefix shares its key with another row. */
  ghost predicate Alone(key: Row -> Bytes, m: nat, s: seq<Row>) {
    forall i, j :: 0 <= i < m && 0 <= j < |s| && i < |s| && i != j ==> key(s[i]) != key(s[j])
  }

  /** No row of the prefix shares its key with a row beyond it. */
  ghost predicate Closed(key: Row -> Bytes, m: nat, s: seq<Row>) {
    forall i, j :: 0 <= i < m <= j < |s| ==> key(s[i]) != key(s[j])
  }

  /** `p` are the visible rows of the shortened scan, `s` those of the whole one. */
  ghost predicate Harmless(tail: Tail, p: seq<Row>, s: seq<Row>, n: nat) {
    || n == 0 || p == s
    || (|p| == n && match tail
                    case Plain => true
                    case Total => false
                    case Grouped(key) => Alone(key, n, s)
                    case Windowed(key) => Closed(key, n, s))
  }

  lemma {:induction false} PlainIff(p: seq<Row>, s: seq<Row>, n: nat)
    requires p <= s && (|p| <= n || n == 0)
    ensures FirstOf(Outputs(Plain, p), n) == FirstOf(Outputs(Plain, s), n) <==> Harmless(Plain, p, s, n)
  {
    if |p| == n { assert FirstOf(Outputs(Plain, p), n) == FirstOf(Outputs(Plain, s), n); }
    if 0 < n && |p| < n && p != s {
      assert |FirstOf(Outputs(Plain, p), n)| == |p| < |FirstOf(Outputs(Plain, s), n)|;
    }
  }

  lemma {:induction false} TotalIff(p: seq<Row>, s: seq<Row>, n: nat)
    requires p <= s
    ensures FirstOf(Outputs(Total, p), n) == FirstOf(Outputs(Total, s), n) <==> Harmless(Total, p, s, n)
  {
    if 0 < n && p != s { assert FirstOf(Outputs(Total, p), n)[0] != FirstOf(Outputs(Total, s), n)[0]; }
  }

  lemma {:induction false} SameCounts(key: Row -> Bytes, p: seq<Row>, s: seq<Row>, n: nat, i: nat)
    requires p <= s && |p| <= n && i < |GroupKeys(key, p)|
    requires FirstOf(GroupCounts(key, p), n) == FirstOf(GroupCounts(key, s), n)
    ensures !Again(key, |p|, s, GroupKeys(key, p)[i])
  {
    hide GroupKeys, Members, Again;
    GroupKeysCount(key, p);
    var a, b := GroupCounts(key, p), GroupCounts(key, s);
    assert FirstOf(a, n) == a;
    assert a[i] == FirstOf(b, n)[i] == b[i];
    MembersPrefix(key, p, s, GroupKeys(key, p)[i]);
  }

  lemma {:induction false} GroupedOnlyIf(key: Row -> Bytes, p: seq<Row>, s: seq<Row>, n: nat)
    requires p <= s && p != s && |p| <= n
    requires FirstOf(GroupCounts(key, p), n) == FirstOf(GroupCounts(key, s), n)
    ensures |p| == n && Alone(key, n, s)
  {
    hide GroupKeys, GroupCounts;
    var ks, m := GroupKeys(key, p), |p|;
    GroupKeysCount(key, p);
    forall j | m <= j < |s| ensures key(s[j]) !in ks {
      if i :| 0 <= i < |ks| && ks[i] == key(s[j]) { SameCounts(key, p, s, n, i); }
    }
    GroupKeysPrefix(key, p, s);
    GroupKeysContain(key, s, key(s[m]));
    assert |ks| < |GroupKeys(key, s)|;
    assert |FirstOf(GroupCounts(key, p), n)| == |FirstOf(GroupCounts(key, s), n)|;
    assert |ks| == n;
    forall i, j | 0 <= i < n && 0 <= j < |s| && i != j ensures key(s[i]) != key(s[j]) {
      assert s[i] == p[i];
      GroupKeysContain(key, p, key(s[i]));
      if j < n { assert s[j] == p[j]; }
    }
  }

  lemma {:induction false} GroupedIf(key: Row -> Bytes, p: seq<Row>, s: seq<Row>, n: nat)
    requires p <= s && |p| == n && Alone(key, n, s)
    ensures FirstOf(GroupCounts(key, p), n) == FirstOf(GroupCounts(key, s), n)
    ensures forall k :: k in GroupKeys(key, p) ==> Members(key, p, k) == Members(key, s, k)
  {
    hide GroupKeys, Members;
    var a, b := GroupCounts(key, p), GroupCounts(key, s);
    GroupKeysPrefix(key, p, s);
    assert Different(key, p);
    GroupKeysCount(key, p);
    forall k | k in GroupKeys(key, p) ensures Members(key, p, k) == Members(key, s, k) {
      GroupKeysContain(key, p, k);
      MembersPrefix(key, p, s, k);
    }
    forall i | 0 <= i < n ensures a[i] == b[i] {
      assert GroupKeys(key, p)[i] in GroupKeys(key, p);
    }
    assert FirstOf(b, n) == b[..n];
  }

  lemma {:induction false} WindowedIff(key: Row -> Bytes, p: seq<Row>, s: seq<Row>, n: nat)
    requires p <= s && (|p| <= n || n == 0)
    ensures FirstOf(PartitionCounts(key, p), n) == FirstOf(PartitionCounts(key, s), n) <==>
      Harmless(Windowed(key), p, s, n)
  {
    hide Members, Again;
    var a, b := PartitionCounts(key, p), PartitionCounts(key, s);
    if 0 < n && |p| < n && p != s {
      assert |FirstOf(a, n)| == |p| < |FirstOf(b, n)|;
    } else if |p| == n {
      assert FirstOf(a, n) == a && FirstOf(b, n) == b[..n];
      PartitionRowsAgree(key, p, s);
    }
  }

  lemma {:induction false} PartitionRowsAgree(key: Row -> Bytes, p: seq<Row>, s: seq<Row>)
    requires p <= s
    ensures PartitionCounts(key, p) == PartitionCounts(key, s)[..|p|] <==> Closed(key, |p|, s)
  {
    hide Members;
    var a, b := PartitionCounts(key, p), PartitionCounts(key, s);
    forall i | 0 <= i < |p| ensures a[i] == b[i] <==> !Again(key, |p|, s, key(s[i])) {
      assert p[i] == s[i];
      MembersPrefix(key, p, s, key(s[i]));
    }
    if a == b[..|p|] {
      forall i, j | 0 <= i < |p| <= j < |s| ensures key(s[i]) != key(s[j]) {
        assert a[i] == b[..|p|][i] == b[i];
      }
    }
    if Closed(key, |p|, s) {
      forall i | 0 <= i < |p| ensures a[i] == b[..|p|][i] {
        assert !Again(key, |p|, s, key(s[i]));
      }
    }
  }

  /** Which queries the early stop does not change. Without row-level security a plain select list never
      notices it; a GROUP BY exactly when every row it delivers is alone in its group. */
  lemma {:induction false} EarlyStopIff(tail: Tail, policy: Row -> bool, rows: seq<Row>, n: nat)
    ensures Answer(tail, policy, Cut(Some(n), rows), n) == Answer(tail, policy, rows, n) <==>
      Harmless(tail, Visible(policy, Cut(Some(n), rows)), Visible(policy, rows), n)
  {
    hide Visible, Outputs, GroupCounts, PartitionCounts, Alone, Closed;
    var p, s := Visible(policy, Cut(Some(n), rows)), Visible(policy, rows);
    VisiblePrefix(policy, Cut(Some(n), rows), rows);
    match tail
    case Plain => PlainIff(p, s, n);
    case Total => TotalIff(p, s, n);
    case Windowed(key) => OutputsAre(tail, p); OutputsAre(tail, s); WindowedIff(key, p, s, n);
    case Grouped(key) =>
      OutputsAre(tail, p);
      OutputsAre(tail, s);
      GroupedIff(key, p, s, n);
  }

  lemma {:induction false} OutputsAre(tail: Tail, rows: seq<Row>)
    ensures tail.Grouped? ==> Outputs(tail, rows) == GroupCounts(tail.key, rows)
    ensures tail.Windowed? ==> Outputs(tail, rows) == PartitionCounts(tail.key, rows)
  {
  }

  lemma {:induction false} GroupedIff(key: Row -> Bytes, p: seq<Row>, s: seq<Row>, n: nat)
    requires p <= s && (|p| <= n || n == 0)
    ensures FirstOf(GroupCounts(key, p), n) == FirstOf(GroupCounts(key, s), n) <==> Harmless(Grouped(key), p, s, n)
  {
    hide GroupCounts, Alone;
    if 0 < n && p != s {
      if FirstOf(GroupCounts(key, p), n) == FirstOf(GroupCounts(key, s), n) { GroupedOnlyIf(key, p, s, n); }
      if |p| == n && Alone(key, n, s) { GroupedIf(key, p, s, n); }
    }
  }

  /** A plain select list over a table without row-level security never notices the early stop. */
  lemma {:induction false} PlainSelectUnchanged(policy: Row -> bool, rows: seq<Row>, n: nat)
    requires forall r :: r in rows ==> policy(r)
    ensures Answer(Plain, policy, Cut(Some(n), rows), n) == Answer(Plain, policy, rows, n)
  {
    hide Visible, Outputs;
    EarlyStopIff(Plain, policy, rows, n);
    AllVisible(policy, rows);
    AllVisible(policy, Cut(Some(n), rows));
  }

  lemma {:induction false} AllVisible(policy: Row -> bool, rows: seq<Row>)
    requires forall r :: r in rows ==> policy(r)
    ensures Visible(policy, rows) == rows
  {
    if rows != [] {
      var n := |rows| - 1;
      assert forall r :: r in rows[..n] ==> r in rows;
      AllVisible(policy, rows[..n]);
      assert rows[n] in rows && rows == rows[..n] + [rows[n]];
    }
  }

  // ---- Over an index plan ----

  lemma {:induction false} FilterNone(t: Table, rows: seq<Row>)
    ensures Filter(t, None, rows) == rows
  {
    if rows != [] { FilterNone(t, rows[1..]); }
  }

  /** Where the index order is the sort, the statement served by the shortened index scan answers as the full
      scan and sort would exactly when the early stop is harmless on the sorted rows. */
  lemma {:induction false} ShortenedPlanIff(t: Table, v: KeyView, order: Order, p: Plan, rowScan: seq<MI.Entry>,
                                            indexScan: seq<MI.Entry>, tail: Tail, policy: Row -> bool, n: nat)
    requires TableOk(t) && InSync(t, v) && Plans(t, None, order, p) && ScansOk(t, v, p, rowScan, indexScan)
    requires p.IndexRange? && p.ordered && FindsAll(t, v, None, p) && TiesAgree(t, v, None, p.def)
    ensures order.ByColumn?
    ensures
      var got, all := PlanRows(t, v, p, rowScan, indexScan), StableSort(t, order.col, RowsOf(t, rowScan));
      Answer(tail, policy, Cut(Some(n), got), n) == Answer(tail, policy, all, n) <==>
        Harmless(tail, Visible(policy, Cut(Some(n), all)), Visible(policy, all), n)
  {
    hide InSync, Plans, ScansOk, FindsAll, TiesAgree, PlanRows, StableSort, RowsOf, Answer, Harmless, Visible, Cut,
      Filter;
    OrderedPlanIff(t, v, None, order, p, rowScan, indexScan);
    FilterNone(t, PlanRows(t, v, p, rowScan, indexScan));
    FilterNone(t, RowsOf(t, rowScan));
    EarlyStopIff(tail, policy, PlanRows(t, v, p, rowScan, indexScan), n);
  }

  /** Groups come out in the order of their first rows, so sorting them again by an expression the rows were
      sorted by moves none. */
  lemma {:induction false} GroupsInOrder(key: Row -> Bytes, rows: seq<Row>, le: (Row, Row) -> bool)
    requires forall i, j :: 0 <= i < j < |rows| ==> le(rows[i], rows[j])
    ensures var ks := GroupKeys(key, rows);
      && (forall k :: k in ks ==> Members(key, rows, k) != [] && Members(key, rows, k)[0] in rows)
      && forall i, j :: 0 <= i < j < |ks| ==> le(Members(key, rows, ks[i])[0], Members(key, rows, ks[j])[0])
  {
    if rows != [] {
      var n := |rows| - 1;
      var p, r := rows[..n], rows[n];
      assert rows == p + [r];
      GroupsInOrder(key, p, le);
      forall k | k in GroupKeys(key, p)
        ensures Members(key, rows, k) != [] && Members(key, rows, k)[0] == Members(key, p, k)[0]
      {
      }
      if key(r) !in GroupKeys(key, p) {
        NoMembers(key, p, key(r));
        assert Members(key, rows, key(r)) == [r];
      }
    }
  }

  lemma {:induction false} NoMembers(key: Row -> Bytes, rows: seq<Row>, k: Bytes)
    requires k !in GroupKeys(key, rows)
    ensures Members(key, rows, k) == []
  {
    if rows != [] { NoMembers(key, rows[..|rows| - 1], k); }
  }

  // ---- What the outputs are, said of the rows ----

  ghost function WithKey(key: Row -> Bytes, rows: seq<Row>, k: Bytes): set<nat> {
    set j: nat | j < |rows| && key(rows[j]) == k
  }

  lemma {:induction false} MembersCount(key: Row -> Bytes, rows: seq<Row>, k: Bytes)
    ensures |Members(key, rows, k)| == |WithKey(key, rows, k)|
  {
    if rows == [] {
      assert WithKey(key, rows, k) == {};
    } else {
      var n := |rows| - 1;
      MembersCount(key, rows[..n], k);
      var before := WithKey(key, rows[..n], k);
      assert WithKey(key, rows, k) == before + if key(rows[n]) == k then {n as nat} else {};
    }
  }

  ghost predicate AllDistinct<T>(s: seq<T>) {
    forall i, j :: 0 <= i < j < |s| ==> s[i] != s[j]
  }

  lemma {:induction false} DistinctSnoc<T>(s: seq<T>, x: T)
    requires AllDistinct(s) && x !in s
    ensures AllDistinct(s + [x])
  {
  }

  lemma {:induction false} GroupKeysDistinct(key: Row -> Bytes, rows: seq<Row>)
    ensures AllDistinct(GroupKeys(key, rows))
  {
    if rows != [] {
      var n := |rows| - 1;
      var before := GroupKeys(key, rows[..n]);
      GroupKeysDistinct(key, rows[..n]);
      hide AllDistinct;
      if key(rows[n]) !in before { DistinctSnoc(before, key(rows[n])); }
    }
  }

  /** A plain select list gives the rows; count(*) their number; GROUP BY one line for each key that occurs, with the
      number of rows that have it; a partition count each row with the number of rows of its key. */
  lemma {:induction false} OutputsMean(key: Row -> Bytes, rows: seq<Row>)
    ensures |Outputs(Plain, rows)| == |rows|
    ensures forall i :: 0 <= i < |rows| ==> Outputs(Plain, rows)[i] == Cells(rows[i])
    ensures Outputs(Total, rows) == [Group([], |rows|)]
    ensures var w := Outputs(Windowed(key), rows);
      |w| == |rows| && forall i :: 0 <= i < |rows| ==> w[i] == Over(rows[i], |WithKey(key, rows, key(rows[i]))|)
    ensures
      var g := Outputs(Grouped(key), rows);
      && AllDistinct(g)
      && (forall k :: Group(k, |WithKey(key, rows, k)|) in g <==> exists i :: 0 <= i < |rows| && key(rows[i]) == k)
      && (forall o :: o in g ==> o.Group? && o.count == |WithKey(key, rows, o.key)|)
  {
    hide GroupKeys, Members;
    forall k ensures |Members(key, rows, k)| == |WithKey(key, rows, k)| { MembersCount(key, rows, k); }
    GroupKeysDistinct(key, rows);
    var ks, g := GroupKeys(key, rows), Outputs(Grouped(key), rows);
    assert |g| == |ks| && forall i :: 0 <= i < |ks| ==> g[i] == Group(ks[i], |WithKey(key, rows, ks[i])|);
    forall i, j | 0 <= i < j < |g| ensures g[i] != g[j] { assert ks[i] != ks[j]; }
    forall k
      ensures Group(k, |WithKey(key, rows, k)|) in g <==> exists i :: 0 <= i < |rows| && key(rows[i]) == k
    {
      GroupKeysContain(key, rows, k);
      if k in ks {
        var i :| 0 <= i < |ks| && ks[i] == k;
        assert g[i] == Group(k, |WithKey(key, rows, k)|);
      }
    }
  }

  // ---- Two queries it changes ----

  /** The text of column b, as a group key. */
  function TextOfB(r: Row): Bytes {
    if 1 < |r| && r[1].Text? then r[1].text else []
  }

  predicate Everything(r: Row) {
    true
  }

  lemma {:induction false} OneGroup(key: Row -> Bytes, x: Row, y: Row)
    requires key(x) == key(y)
    ensures GroupCounts(key, [x]) == [Group(key(x), 1)] && GroupCounts(key, [x, y]) == [Group(key(x), 2)]
  {
    assert [x, y][..1] == [x] && [x][..0] == [];
    assert GroupKeys(key, [x]) == [key(x)] && GroupKeys(key, [x, y]) == [key(x)];
    assert Members(key, [x], key(x)) == [x] && Members(key, [x, y], key(x)) == [x, y];
  }

  /** Rows (1, 1) and (2, 1): SELECT b, count(*) ... GROUP BY b ORDER BY b LIMIT 1 answers (1, 1), not (1, 2). */
  lemma {:induction false} GroupByLimitMiscounts()
    ensures var rows := [[RC.Text([49]), RC.Text([49])], [RC.Text([50]), RC.Text([49])]];
      && Answer(Grouped(TextOfB), Everything, Cut(Some(1), rows), 1) == [Group([49], 1)]
      && Answer(Grouped(TextOfB), Everything, rows, 1) == [Group([49], 2)]
  {
    hide GroupCounts, Visible;
    var x, y := [RC.Text([49]), RC.Text([49])], [RC.Text([50]), RC.Text([49])];
    assert Cut(Some(1), [x, y]) == [x];
    AllVisible(Everything, [x]);
    AllVisible(Everything, [x, y]);
    OneGroup(TextOfB, x, y);
  }

  /** The same rows under a policy that hides the first: ORDER BY b LIMIT 1 answers nothing. */
  lemma {:induction false} HiddenRowTakesThePlace()
    ensures
      var x, y := [RC.Text([49]), RC.Text([49])], [RC.Text([50]), RC.Text([49])];
      && Answer(Plain, (r: Row) => r == y, Cut(Some(1), [x, y]), 1) == []
      && Answer(Plain, (r: Row) => r == y, [x, y], 1) == [Cells(y)]
  {
    var x, y := [RC.Text([49]), RC.Text([49])], [RC.Text([50]), RC.Text([49])];
    assert [x, y][..1] == [x] && [x][..0] == [];
    assert Visible((r: Row) => r == y, [x, y]) == [y];
  }
}
