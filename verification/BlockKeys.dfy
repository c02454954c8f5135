/** Row keys built from marked blocks: 0x00 opens a NULL, 0x01 opens a text, '|' closes either. The set
    operations, DISTINCT and window partitions all group rows by such keys. */
module BlockKeys {
  import opened Bytes
  import RC = RowCodec

  type Row = seq<RC.Datum>

  const BAR: byte := 124

  predicate IsMarker(b: byte) {
    b == 0 || b == 1
  }

  predicate NoMarker(b: Bytes) {
    forall i :: 0 <= i < |b| ==> !IsMarker(b[i])
  }

  /** A block that stands for NULL: it opens with 0x00 and the bar that closes it is its only one. */
  predicate NullBlock(nul: Bytes) {
    && |nul| >= 2 && nul[0] == 0 && NoMarker(nul[1..])
    && forall i :: 0 <= i < |nul| ==> (nul[i] == BAR <==> i == |nul| - 1)
  }

  function Block(nul: Bytes, d: RC.Datum): Bytes {
    if d.Null? then nul else [1] + d.text + [BAR]
  }

  function BlockKey(nul: Bytes, r: Row): Bytes {
    if r == [] then [] else BlockKey(nul, r[..|r| - 1]) + Block(nul, r[|r| - 1])
  }

  method WriteBlockKey(nul: Bytes, r: Row) returns (k: Bytes)
    ensures k == BlockKey(nul, r)
  {
    k := [];
    for i := 0 to |r|
      invariant k == BlockKey(nul, r[..i])
    {
      assert r[..i + 1][..i] == r[..i];
      if r[i].Null? {
        k := k + nul;
      } else {
        k := k + ([1] + r[i].text + [BAR]);
      }
    }
    assert r[..|r|] == r;
  }

  predicate CleanCell(d: RC.Datum) {
    d.Text? ==> NoMarker(d.text)
  }

  /** No text holds a 0x00 or 0x01 byte. */
  predicate Clean(r: Row) {
    forall i :: 0 <= i < |r| ==> CleanCell(r[i])
  }

  predicate AllClean(rows: seq<Row>) {
    forall i :: 0 <= i < |rows| ==> Clean(rows[i])
  }

  predicate OneMarker(b: Bytes) {
    b != [] && IsMarker(b[0]) && NoMarker(b[1..])
  }

  lemma {:induction false} BlockHasOneMarker(nul: Bytes, d: RC.Datum)
    requires NullBlock(nul) && CleanCell(d)
    ensures OneMarker(Block(nul, d))
  {
    if d.Text? {
      assert Block(nul, d)[1..] == d.text + [BAR];
    }
  }

  lemma {:induction false} BlockInjective(nul: Bytes, a: RC.Datum, b: RC.Datum)
    requires NullBlock(nul) && Block(nul, a) == Block(nul, b)
    ensures a == b
  {
    if a.Text? && b.Text? {
      var x, y := Block(nul, a), Block(nul, b);
      assert a.text == x[1..|x| - 1] && b.text == y[1..|y| - 1];
    }
    assert a.Text? ==> Block(nul, a)[0] == 1;
    assert b.Text? ==> Block(nul, b)[0] == 1;
  }

  lemma {:induction false} LongerStartsInside(p: Bytes, x: Bytes, q: Bytes, y: Bytes)
    requires p + x == q + y && |p| < |q| && y != [] && OneMarker(x)
    ensures !IsMarker(y[0])
  {
    assert (p + x)[|q|] == x[|q| - |p|] && (q + y)[|q|] == y[0];
    assert x[|q| - |p|] == x[1..][|q| - |p| - 1];
  }

  lemma {:induction false} LastBlock(p: Bytes, x: Bytes, q: Bytes, y: Bytes)
    requires OneMarker(x) && OneMarker(y) && p + x == q + y
    ensures p == q && x == y
  {
    if |p| < |q| {
      LongerStartsInside(p, x, q, y);
    } else if |q| < |p| {
      LongerStartsInside(q, y, p, x);
    } else {
      assert p == (p + x)[..|p|] && q == (q + y)[..|q|] && x == (p + x)[|p|..] && y == (q + y)[|q|..];
    }
  }

  /** On clean rows, of any arity, the key determines the row. */
  lemma {:induction false} BlockKeyInjective(nul: Bytes, r: Row, s: Row)
    requires NullBlock(nul) && Clean(r) && Clean(s)
    ensures BlockKey(nul, r) == BlockKey(nul, s) <==> r == s
    decreases |r|
  {
    hide Block, OneMarker, CleanCell, NullBlock, BlockKey;
    EmptyKey(nul, r);
    EmptyKey(nul, s);
    if r != [] && s != [] && BlockKey(nul, r) == BlockKey(nul, s) {
      var m, n := |r| - 1, |s| - 1;
      KeySnoc(nul, r);
      KeySnoc(nul, s);
      BlockHasOneMarker(nul, r[m]);
      BlockHasOneMarker(nul, s[n]);
      LastBlock(BlockKey(nul, r[..m]), Block(nul, r[m]), BlockKey(nul, s[..n]), Block(nul, s[n]));
      BlockKeyInjective(nul, r[..m], s[..n]);
      BlockInjective(nul, r[m], s[n]);
      assert r == r[..m] + [r[m]] && s == s[..n] + [s[n]];
    }
  }

  lemma {:induction false} EmptyKey(nul: Bytes, r: Row)
    requires NullBlock(nul)
    ensures BlockKey(nul, r) == [] <==> r == []
  {
  }

  lemma {:induction false} KeySnoc(nul: Bytes, r: Row)
    requires r != []
    ensures BlockKey(nul, r) == BlockKey(nul, r[..|r| - 1]) + Block(nul, r[|r| - 1])
  {
  }

  // ---- Which rows share their key ----

  lemma {:induction false} KeyAppend(nul: Bytes, r: Row, s: Row)
    ensures BlockKey(nul, r + s) == BlockKey(nul, r) + BlockKey(nul, s)
    decreases |s|
  {
    hide Block;
    if s == [] {
      assert r + s == r;
    } else {
      KeyAppend(nul, r, s[..|s| - 1]);
      assert (r + s)[..|r + s| - 1] == r + s[..|s| - 1];
    }
  }

  lemma {:induction false} KeyCons(nul: Bytes, r: Row)
    requires r != []
    ensures BlockKey(nul, r) == Block(nul, r[0]) + BlockKey(nul, r[1..])
  {
    hide Block;
    assert [r[0]][..0] == [];
    assert r == [r[0]] + r[1..];
    KeyAppend(nul, [r[0]], r[1..]);
  }

  lemma {:induction false} KeyStarts(nul: Bytes, r: Row)
    requires NullBlock(nul) && r != []
    ensures BlockKey(nul, r) != [] && BlockKey(nul, r)[0] == if r[0].Null? then 0 else 1
  {
    KeyCons(nul, r);
  }

  /** A bar followed by the marker of a text. */
  predicate HoldsText(x: Bytes) {
    exists p :: 0 <= p < |x| - 1 && x[p] == BAR && x[p + 1] == 1
  }

  /** The text and the bar that closes it end in a bar and the block of a NULL. */
  predicate EndsInNull(nul: Bytes, x: Bytes) {
    0 < |nul| <= |x| && x[|x| - |nul|] == BAR && x[|x| - |nul| + 1..] + [BAR] == nul
  }

  /** The block of the text can be read as two blocks. */
  predicate Splits(nul: Bytes, x: Bytes) {
    HoldsText(x) || EndsInNull(nul, x)
  }

  /** Reading NULL blocks off the front of `z`, its closing bar and what follows: a text opens inside `z`,
      or `z` is used up by the first `k` cells. */
  lemma {:induction false} NullRun(nul: Bytes, z: Bytes, rest: Bytes, b: Row) returns (k: nat)
    requires NullBlock(nul) && b != [] && z + [BAR] + rest == BlockKey(nul, b)
    ensures HoldsText([BAR] + z) || (0 < k <= |b| && EndsInNull(nul, [BAR] + z) && rest == BlockKey(nul, b[k..]))
    decreases |b|
  {
    hide HoldsText, EndsInNull, BlockKey;
    KeyStarts(nul, b);
    KeyCons(nul, b);
    k := 1;
    if b[0].Text? {
      OpensText([BAR] + z, 0);
    } else {
      NullFits(nul, z, rest, BlockKey(nul, b[1..]));
      var u := z + [BAR];
      var n := |nul|;
      if |u| == n {
        assert rest == BlockKey(nul, b[1..]) by { assert (u + rest)[n..] == rest; }
        EndsHere(nul, [BAR] + z);
      } else {
        var z' := z[n..];
        assert z == nul + z' && z' + [BAR] + rest == (u + rest)[n..];
        assert b[1..] != [] by { EmptyKey(nul, b[1..]); assert z' + [BAR] + rest == BlockKey(nul, b[1..]); }
        var m := NullRun(nul, z', rest, b[1..]);
        k := m + 1;
        if !HoldsText([BAR] + z') { assert b[1..][m..] == b[k..]; }
        Deeper(nul, z', z);
      }
    }
  }

  lemma {:induction false} OpensText(x: Bytes, p: nat)
    requires p + 1 < |x| && x[p] == BAR && x[p + 1] == 1
    ensures HoldsText(x)
  {
  }

  lemma {:induction false} EndsHere(nul: Bytes, x: Bytes)
    requires NullBlock(nul) && x + [BAR] == [BAR] + nul
    ensures EndsInNull(nul, x)
  {
    assert |x| == |nul| && x[0] == (x + [BAR])[0];
    assert x[1..] + [BAR] == (x + [BAR])[1..];
  }

  lemma {:induction false} BarIsLast(nul: Bytes, i: nat)
    requires NullBlock(nul) && i < |nul| && nul[i] == BAR
    ensures i == |nul| - 1
  {
  }

  lemma {:induction false} NoMarkerInside(nul: Bytes, i: nat)
    requires NullBlock(nul) && 0 < i < |nul|
    ensures !IsMarker(nul[i])
  {
    assert nul[i] == nul[1..][i - 1];
  }

  /** A NULL block that starts in `z` ends in `z` or with its closing bar. */
  lemma {:induction false} NullFits(nul: Bytes, z: Bytes, rest: Bytes, tail: Bytes)
    requires NullBlock(nul) && z + [BAR] + rest == nul + tail
    ensures |nul| <= |z| + 1 && (z + [BAR])[..|nul|] == nul
  {
    hide NullBlock;
    var k := z + [BAR] + rest;
    assert k[|z|] == BAR;
    if |z| < |nul| {
      assert k[|z|] == nul[|z|];
      BarIsLast(nul, |z|);
    }
    assert (z + [BAR])[..|nul|] == k[..|nul|] == (nul + tail)[..|nul|] == nul;
  }

  lemma {:induction false} Deeper(nul: Bytes, z: Bytes, whole: Bytes)
    requires NullBlock(nul) && whole == nul + z
    ensures HoldsText([BAR] + z) ==> HoldsText([BAR] + whole)
    ensures EndsInNull(nul, [BAR] + z) ==> EndsInNull(nul, [BAR] + whole)
  {
    var x, y := [BAR] + z, [BAR] + whole;
    var d := |nul|;
    assert forall i :: 0 <= i < |x| ==> y[d + i] == x[i];
    if HoldsText(x) {
      var p :| 0 <= p < |x| - 1 && x[p] == BAR && x[p + 1] == 1;
      assert y[d + p] == BAR && y[d + p + 1] == 1;
    }
    if EndsInNull(nul, x) {
      assert y[|y| - |nul| + 1..] == x[|x| - |nul| + 1..];
    }
  }

  /** If the text `x` is read as `y` and more cells, then it splits. */
  lemma {:induction false} ReadShorter(nul: Bytes, x: Bytes, y: Bytes, rest: Bytes, b: Row) returns (k: nat)
    requires NullBlock(nul) && |y| < |x| && b != [] && x + [BAR] + rest == y + [BAR] + BlockKey(nul, b)
    ensures HoldsText(x) || (0 < k <= |b| && EndsInNull(nul, x) && rest == BlockKey(nul, b[k..]))
  {
    hide HoldsText, EndsInNull, BlockKey;
    var n := |y|;
    var all := x + [BAR] + rest;
    assert x[..n] == y by { assert all[..n] == y; }
    assert x[n] == BAR by { assert all[n] == BAR; }
    var z := x[n + 1..];
    assert x == y + ([BAR] + z);
    assert z + [BAR] + rest == all[n + 1..] == BlockKey(nul, b);
    k := NullRun(nul, z, rest, b);
    Prefixed(nul, y, [BAR] + z);
  }

  lemma {:induction false} Prefixed(nul: Bytes, y: Bytes, x: Bytes)
    requires NullBlock(nul)
    ensures HoldsText(x) ==> HoldsText(y + x)
    ensures EndsInNull(nul, x) ==> EndsInNull(nul, y + x)
  {
    var all := y + x;
    assert forall i :: 0 <= i < |x| ==> all[|y| + i] == x[i];
    if HoldsText(x) {
      var p :| 0 <= p < |x| - 1 && x[p] == BAR && x[p + 1] == 1;
      assert all[|y| + p] == BAR && all[|y| + p + 1] == 1;
    }
    if EndsInNull(nul, x) {
      assert all[|all| - |nul| + 1..] == x[|x| - |nul| + 1..];
    }
  }

  ghost predicate SomeSplits(nul: Bytes, a: Row) {
    exists i :: 0 <= i < |a| && a[i].Text? && Splits(nul, a[i].text)
  }

  lemma {:induction false} SplitsLater(nul: Bytes, a: Row)
    requires a != [] && SomeSplits(nul, a[1..])
    ensures SomeSplits(nul, a)
  {
    var i :| 0 <= i < |a[1..]| && a[1..][i].Text? && Splits(nul, a[1..][i].text);
    assert a[i + 1] == a[1..][i];
  }

  lemma {:induction false} AfterFirst(nul: Bytes, a: Row)
    requires a != []
    ensures |BlockKey(nul, a)| >= |Block(nul, a[0])|
    ensures BlockKey(nul, a)[|Block(nul, a[0])|..] == BlockKey(nul, a[1..])
  {
    hide BlockKey, Block;
    KeyCons(nul, a);
  }

  lemma {:induction false} AfterMarker(nul: Bytes, a: Row)
    requires a != [] && a[0].Text?
    ensures BlockKey(nul, a) == [1] + (a[0].text + [BAR] + BlockKey(nul, a[1..]))
  {
    hide BlockKey;
    KeyCons(nul, a);
  }

  /** The two first cells of equal keys: both NULL, or both texts. */
  lemma {:induction false} SameFirst(nul: Bytes, a: Row, b: Row)
    requires NullBlock(nul) && a != [] && b != [] && BlockKey(nul, a) == BlockKey(nul, b)
    ensures a[0].Null? <==> b[0].Null?
    ensures a[0] == b[0] ==> BlockKey(nul, a[1..]) == BlockKey(nul, b[1..])
    ensures a[0].Text? ==> a[0].text + [BAR] + BlockKey(nul, a[1..]) == b[0].text + [BAR] + BlockKey(nul, b[1..])
  {
    hide BlockKey, Block, NullBlock;
    KeyStarts(nul, a);
    KeyStarts(nul, b);
    if a[0].Text? {
      AfterMarker(nul, a);
      AfterMarker(nul, b);
      DropMarker(a[0].text + [BAR] + BlockKey(nul, a[1..]), b[0].text + [BAR] + BlockKey(nul, b[1..]));
    }
    if a[0] == b[0] {
      AfterFirst(nul, a);
      AfterFirst(nul, b);
    }
  }

  lemma {:induction false} DropMarker(a: Bytes, b: Bytes)
    requires [1] + a == [1] + b
    ensures a == b
  {
    assert a == ([1] + a)[1..] && b == ([1] + b)[1..];
  }

  /** Reading a row as more cells than it has splits one of its texts. */
  lemma {:induction false} MoreCells(nul: Bytes, a: Row, b: Row)
    requires NullBlock(nul) && BlockKey(nul, a) == BlockKey(nul, b) && |b| > |a|
    ensures SomeSplits(nul, a)
    decreases |a|, 0
  {
    hide BlockKey, Splits, NullBlock;
    EmptyKey(nul, a);
    EmptyKey(nul, b);
    SameFirst(nul, a, b);
    if a[0] == b[0] {
      MoreCells(nul, a[1..], b[1..]);
      SplitsLater(nul, a);
    } else {
      FirstDiffers(nul, a, b);
    }
  }

  lemma {:induction false} FirstDiffers(nul: Bytes, a: Row, b: Row)
    requires NullBlock(nul) && a != [] && |b| > |a| && a[0].Text? && b[0].Text? && a[0] != b[0]
    requires a[0].text + [BAR] + BlockKey(nul, a[1..]) == b[0].text + [BAR] + BlockKey(nul, b[1..])
    ensures SomeSplits(nul, a)
    decreases |a|, -1
  {
    hide BlockKey, NullBlock;
    var x, y := a[0].text, b[0].text;
    if |y| < |x| {
      var k := ReadShorter(nul, x, y, BlockKey(nul, a[1..]), b[1..]);
      assert Splits(nul, x);
    } else {
      var z := ReadLonger(x, y, BlockKey(nul, a[1..]), BlockKey(nul, b[1..]));
      Shifted(nul, a[1..], z, b[1..]);
      SplitsLater(nul, a);
    }
  }

  lemma {:induction false} ReadLonger(x: Bytes, y: Bytes, ka: Bytes, kb: Bytes) returns (z: Bytes)
    requires x != y && |y| >= |x| && x + [BAR] + ka == y + [BAR] + kb
    ensures |y| > |x| && ka == z + [BAR] + kb
  {
    var all := x + [BAR] + ka;
    var n := |x|;
    assert all[..n] == x && all[..|y|] == y;
    if |y| > n {
      z := y[n + 1..];
      assert all[n] == BAR == y[n];
      assert ka == all[n + 1..] == y[n + 1..] + [BAR] + kb;
    }
  }

  /** Cells that spell something, a bar, and at least as many cells again: one of the texts splits. */
  lemma {:induction false} Shifted(nul: Bytes, a: Row, z: Bytes, b: Row)
    requires NullBlock(nul) && BlockKey(nul, a) == z + [BAR] + BlockKey(nul, b) && |b| >= |a|
    ensures SomeSplits(nul, a)
    decreases |a|, 0
  {
    hide BlockKey, Splits, NullBlock, Block;
    EmptyKey(nul, a);
    EmptyKey(nul, b);
    KeyCons(nul, a);
    var first, tail := Block(nul, a[0]), BlockKey(nul, a[1..]);
    var n := |z| + 1;
    var all := z + [BAR] + BlockKey(nul, b);
    if |first| == n {
      assert tail == all[n..] == BlockKey(nul, b);
      MoreCells(nul, a[1..], b);
      SplitsLater(nul, a);
    } else if |first| < n {
      var z' := z[|first|..];
      assert tail == all[|first|..] == z' + [BAR] + BlockKey(nul, b);
      Shifted(nul, a[1..], z', b);
      SplitsLater(nul, a);
    } else {
      InsideFirst(nul, a, z, b);
    }
  }

  /** The bar falls inside the first cell. */
  lemma {:induction false} InsideFirst(nul: Bytes, a: Row, z: Bytes, b: Row)
    requires NullBlock(nul) && a != [] && b != [] && |Block(nul, a[0])| > |z| + 1
    requires Block(nul, a[0]) + BlockKey(nul, a[1..]) == z + [BAR] + BlockKey(nul, b)
    ensures SomeSplits(nul, a)
  {
    hide BlockKey, NullBlock;
    KeyStarts(nul, b);
    var first, tail, kb := Block(nul, a[0]), BlockKey(nul, a[1..]), BlockKey(nul, b);
    BytesInside(first, tail, z, kb);
    if a[0].Null? {
      NoMarkerInside(nul, |z| + 1);
    } else {
      var x := a[0].text;
      DropFirst(x, tail, z, kb);
      var k := ReadShorter(nul, x, z[1..], tail, b);
      assert Splits(nul, x);
    }
  }

  lemma {:induction false} BytesInside(first: Bytes, tail: Bytes, z: Bytes, kb: Bytes)
    requires first + tail == z + [BAR] + kb && |first| > |z| + 1 && kb != []
    ensures first[|z|] == BAR && first[|z| + 1] == kb[0]
  {
    var all := first + tail;
    assert all[|z|] == first[|z|] && all[|z| + 1] == first[|z| + 1];
    assert (z + [BAR] + kb)[|z|] == BAR && (z + [BAR] + kb)[|z| + 1] == kb[0];
  }

  lemma {:induction false} DropFirst(x: Bytes, tail: Bytes, z: Bytes, kb: Bytes)
    requires [1] + x + [BAR] + tail == z + [BAR] + kb
    requires |z| + 1 < |x| + 2 && ([1] + x + [BAR])[|z|] == BAR
    ensures z != [] && x + [BAR] + tail == z[1..] + [BAR] + kb && |z[1..]| < |x|
  {
    var all := [1] + x + [BAR] + tail;
    assert z != [];
    assert all[1..] == x + [BAR] + tail;
    assert (z + [BAR] + kb)[1..] == z[1..] + [BAR] + kb;
  }

  /** Reading a row as fewer cells than it has needs a text that is not the last. */
  lemma {:induction false} FewerCells(nul: Bytes, a: Row, b: Row) returns (j: nat)
    requires NullBlock(nul) && BlockKey(nul, a) == BlockKey(nul, b) && |b| < |a|
    ensures j < |a| - 1 && a[j].Text?
    decreases |a|
  {
    hide BlockKey, NullBlock;
    EmptyKey(nul, a);
    EmptyKey(nul, b);
    SameFirst(nul, a, b);
    if a[0].Text? {
      j := 0;
    } else {
      var i := FewerCells(nul, a[1..], b[1..]);
      j := i + 1;
    }
  }

  /** Another row of the same width has the same key. */
  ghost predicate HasTwin(nul: Bytes, r: Row) {
    exists s: Row :: IsTwin(nul, r, s)
  }

  predicate IsTwin(nul: Bytes, r: Row, s: Row) {
    s != r && |s| == |r| && BlockKey(nul, s) == BlockKey(nul, r)
  }

  /** Cell `i` can be read as two, and cell `j` can swallow the one after it. */
  predicate Confusable(nul: Bytes, r: Row, i: nat, j: nat) {
    && i < |r| && j < |r| - 1 && r[i].Text? && r[j].Text? && Splits(nul, r[i].text)
    && (i != j || HoldsText(r[i].text))
  }

  lemma {:induction false} TwinConfusable(nul: Bytes, r: Row, s: Row) returns (i: nat, j: nat)
    requires NullBlock(nul) && IsTwin(nul, r, s)
    ensures Confusable(nul, r, i, j)
    decreases |r|
  {
    hide BlockKey, NullBlock, HoldsText, EndsInNull;
    if r != [] {
      SameFirst(nul, r, s);
      if r[0] == s[0] {
        assert r == [r[0]] + r[1..] && s == [s[0]] + s[1..];
        i, j := TwinConfusable(nul, r[1..], s[1..]);
        i, j := i + 1, j + 1;
      } else {
        i, j := FirstTwin(nul, r, s);
      }
    }
  }

  lemma {:induction false} FirstTwin(nul: Bytes, r: Row, s: Row) returns (i: nat, j: nat)
    requires NullBlock(nul) && |r| == |s| && r != [] && r[0].Text? && s[0].Text? && r[0] != s[0]
    requires r[0].text + [BAR] + BlockKey(nul, r[1..]) == s[0].text + [BAR] + BlockKey(nul, s[1..])
    ensures Confusable(nul, r, i, j)
  {
    hide BlockKey, NullBlock, HoldsText, EndsInNull;
    var x, y := r[0].text, s[0].text;
    i, j := 0, 0;
    WiderThanOne(nul, r, s);
    if |y| < |x| {
      var k := ReadShorter(nul, x, y, BlockKey(nul, r[1..]), s[1..]);
      if !HoldsText(x) {
        var m := FewerCells(nul, r[1..], s[1..][k..]);
        j := m + 1;
      }
    } else {
      var z := ReadLonger(x, y, BlockKey(nul, r[1..]), BlockKey(nul, s[1..]));
      Shifted(nul, r[1..], z, s[1..]);
      var m :| 0 <= m < |r[1..]| && r[1..][m].Text? && Splits(nul, r[1..][m].text);
      i := m + 1;
    }
  }

  lemma {:induction false} WiderThanOne(nul: Bytes, r: Row, s: Row)
    requires |r| == |s| && r != [] && r[0].Text? && s[0].Text? && r[0] != s[0]
    requires r[0].text + [BAR] + BlockKey(nul, r[1..]) == s[0].text + [BAR] + BlockKey(nul, s[1..])
    ensures |r| > 1
  {
    if |r| == 1 { CloseText(r[0].text, s[0].text); }
  }

  lemma {:induction false} CloseText(x: Bytes, y: Bytes)
    requires x + [BAR] + [] == y + [BAR] + []
    ensures x == y
  {
    var k := x + [BAR] + [];
    assert x == k[..|k| - 1] && y == k[..|k| - 1];
  }

  // ---- A confusable row has a twin ----

  lemma {:induction false} SameStretch(nul: Bytes, r: Row, i: nat, j: nat, mid: Row)
    requires i <= j <= |r| && BlockKey(nul, mid) == BlockKey(nul, r[i..j])
    ensures BlockKey(nul, r[..i] + mid + r[j..]) == BlockKey(nul, r)
  {
    hide BlockKey;
    var (a, b, c) := (r[..i], r[i..j], r[j..]);
    assert r == a + b + c;
    KeyAppend(nul, a, mid);
    KeyAppend(nul, a + mid, c);
    KeyAppend(nul, a, b);
    KeyAppend(nul, a + b, c);
  }

  lemma {:induction false} ShortKeys(nul: Bytes, c: RC.Datum, d: RC.Datum)
    ensures BlockKey(nul, [c]) == Block(nul, c) && BlockKey(nul, [c, d]) == Block(nul, c) + Block(nul, d)
  {
    hide Block;
    assert [c][..0] == [] && [c, d][..1] == [c];
  }

  /** The text of two cells read as one. */
  function Swallow(nul: Bytes, x: Bytes, d: RC.Datum): Bytes
    requires NullBlock(nul)
  {
    x + [BAR] + Block(nul, d)[..|Block(nul, d)| - 1]
  }

  lemma {:induction false} SwallowKey(nul: Bytes, x: Bytes, d: RC.Datum)
    requires NullBlock(nul)
    ensures BlockKey(nul, [RC.Text(Swallow(nul, x, d))]) == BlockKey(nul, [RC.Text(x), d])
  {
    hide BlockKey;
    ShortKeys(nul, RC.Text(x), d);
    ShortKeys(nul, RC.Text(Swallow(nul, x, d)), d);
    var b := Block(nul, d);
    var c := b[..|b| - 1];
    assert b == c + [BAR];
    Regroup(x, c);
  }

  lemma {:induction false} Regroup(x: Bytes, c: Bytes)
    ensures [1] + (x + [BAR] + c) + [BAR] == [1] + x + [BAR] + (c + [BAR])
  {
  }

  /** The first of the two cells a text splits into, and the second. */
  lemma {:induction false} SplitKey(nul: Bytes, x: Bytes) returns (w: Bytes, d: RC.Datum)
    requires NullBlock(nul) && Splits(nul, x)
    ensures |w| < |x| && (HoldsText(x) ==> d.Text?)
    ensures BlockKey(nul, [RC.Text(w), d]) == BlockKey(nul, [RC.Text(x)])
  {
    hide BlockKey, NullBlock;
    var p: nat;
    if HoldsText(x) {
      p :| 0 <= p < |x| - 1 && x[p] == BAR && x[p + 1] == 1;
      d := RC.Text(x[p + 2..]);
      assert x[p + 1..] == [1] + d.text;
    } else {
      p := |x| - |nul|;
      d := RC.Null;
    }
    w := x[..p];
    assert x == w + [BAR] + x[p + 1..];
    assert Block(nul, d) == x[p + 1..] + [BAR];
    Regroup(w, x[p + 1..]);
    ShortKeys(nul, RC.Text(x), d);
    ShortKeys(nul, RC.Text(w), d);
  }

  /** Splitting cell `i` and then letting cell `j` swallow its neighbour gives a twin. */
  lemma {:induction false} ConfusableTwin(nul: Bytes, r: Row, i: nat, j: nat)
    requires NullBlock(nul) && Confusable(nul, r, i, j)
    ensures HasTwin(nul, r)
  {
    hide BlockKey, NullBlock, HoldsText, EndsInNull, Swallow, Block;
    var w, d := SplitKey(nul, r[i].text);
    assert r[i..i + 1] == [r[i]];
    SameStretch(nul, r, i, i + 1, [RC.Text(w), d]);
    var q := r[..i] + [RC.Text(w), d] + r[i + 1..];
    var m := if j < i then j else j + 1;
    assert q[m].Text? && m < |q| - 1 && (j < i ==> q[m] == r[m]);
    SwallowKey(nul, q[m].text, q[m + 1]);
    assert q[m..m + 2] == [q[m], q[m + 1]];
    var c := RC.Text(Swallow(nul, q[m].text, q[m + 1]));
    SameStretch(nul, q, m, m + 2, [c]);
    var s := q[..m] + [c] + q[m + 2..];
    SwallowLonger(nul, q[m].text, q[m + 1]);
    assert if j < i then s[j] != r[j] else s[i] != r[i];
    assert IsTwin(nul, r, s);
  }

  lemma {:induction false} SwallowLonger(nul: Bytes, x: Bytes, d: RC.Datum)
    requires NullBlock(nul)
    ensures |Swallow(nul, x, d)| > |x|
  {
  }

  /** Exactly the rows that can be confused with another of their width: one text can be read as two
      cells, and another that is not the last, or the second of those two, takes in the cell after it. */
  lemma {:induction false} TwinIff(nul: Bytes, r: Row)
    requires NullBlock(nul)
    ensures HasTwin(nul, r) <==> exists i, j :: Confusable(nul, r, i, j)
  {
    hide BlockKey, NullBlock, Confusable;
    if s :| IsTwin(nul, r, s) {
      var i, j := TwinConfusable(nul, r, s);
    }
    if i, j :| Confusable(nul, r, i, j) {
      ConfusableTwin(nul, r, i, j);
    }
  }

  /** A marker inside a text makes two rows of the same arity look alike. */
  lemma {:induction false} MarkersCollide(nul: Bytes)
    ensures
      var r, s := [RC.Text([97, BAR, 1, 98]), RC.Text([99])], [RC.Text([97]), RC.Text([98, BAR, 1, 99])];
      r != s && BlockKey(nul, r) == BlockKey(nul, s)
  {
    hide BlockKey;
    ShortKeys(nul, RC.Text([97, BAR, 1, 98]), RC.Text([99]));
    ShortKeys(nul, RC.Text([97]), RC.Text([98, BAR, 1, 99]));
  }
}
