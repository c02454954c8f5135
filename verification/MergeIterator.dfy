/** Scans inside a transaction (engine/internal/transactions/merge_iter.go): the sorted buffer of the
    transaction's own writes merged over a snapshot iterator, one `produce` at a time. */
module MergeIterator {
  import opened Bytes
  import opened Versions

  type Entry = (Key, Bytes)

  ghost predicate EntriesAscending(es: seq<Entry>) {
    forall i, j :: 0 <= i < j < |es| ==> Lt(es[i].0, es[j].0)
  }

  ghost predicate MutsAscending(ms: seq<Mutation>) {
    forall i, j :: 0 <= i < j < |ms| ==> Lt(ms[i].key, ms[j].key)
  }

  /** The value an entry list holds for a key. */
  function Lookup(es: seq<Entry>, k: Key): (r: Option<Bytes>)
    ensures r.Some? ==> (k, r.value) in es
    decreases |es|
  {
    if es == [] then None else if es[0].0 == k then Some(es[0].1) else Lookup(es[1..], k)
  }

  function Find(ms: seq<Mutation>, k: Key): (r: Option<Mutation>)
    ensures r.Some? ==> r.value in ms && r.value.key == k
    decreases |ms|
  {
    if ms == [] then None else if ms[0].key == k then Some(ms[0]) else Find(ms[1..], k)
  }

  // ---- bufferedForPrefix ----

  function InsertByKey(m: Mutation, ms: seq<Mutation>): seq<Mutation>
    decreases |ms|
  {
    if ms == [] || Lt(m.key, ms[0].key) then [m] + ms else [ms[0]] + InsertByKey(m, ms[1..])
  }

  /** `sort.Slice` by key, for mutations of distinct keys. */
  function SortByKey(ms: seq<Mutation>): seq<Mutation>
    decreases |ms|
  {
    if ms == [] then [] else InsertByKey(ms[0], SortByKey(ms[1..]))
  }

  /** `out` holds the last mutation of every buffered key under the prefix, in key order. */
  ghost predicate IsBufferedForPrefix(out: seq<Mutation>, muts: seq<Mutation>, prefix: Bytes) {
    && MutsAscending(out)
    && forall k :: Find(out, k) == if HasPrefix(k, prefix) then LastWrite(muts, k) else None
  }

  lemma {:induction false} InsertByKeyFinds(m: Mutation, ms: seq<Mutation>, k: Key)
    requires Find(ms, m.key) == None
    ensures Find(InsertByKey(m, ms), k) == if k == m.key then Some(m) else Find(ms, k)
    decreases |ms|
  {
    var r := InsertByKey(m, ms);
    if ms == [] || Lt(m.key, ms[0].key) {
      assert r[1..] == ms;
    } else {
      assert r[1..] == InsertByKey(m, ms[1..]);
      InsertByKeyFinds(m, ms[1..], k);
    }
  }

  lemma {:induction false} InsertByKeyMembers(m: Mutation, ms: seq<Mutation>, x: Mutation)
    ensures x in InsertByKey(m, ms) <==> x == m || x in ms
    decreases |ms|
  {
    if !(ms == [] || Lt(m.key, ms[0].key)) {
      InsertByKeyMembers(m, ms[1..], x);
      assert ms == [ms[0]] + ms[1..];
    }
  }

  lemma {:induction false} InsertByKeyAscends(m: Mutation, ms: seq<Mutation>)
    requires MutsAscending(ms) && Find(ms, m.key) == None
    ensures MutsAscending(InsertByKey(m, ms))
    decreases |ms|
  {
    var r := InsertByKey(m, ms);
    if ms == [] {
    } else if Lt(m.key, ms[0].key) {
      forall j | 0 <= j < |ms| ensures Lt(m.key, ms[j].key) {
        if j > 0 { LtTransitive(m.key, ms[0].key, ms[j].key); }
      }
    } else {
      LtTotal(m.key, ms[0].key);
      InsertByKeyAscends(m, ms[1..]);
      forall j | 0 < j < |r| ensures Lt(r[0].key, r[j].key) {
        assert r[j] == r[1..][j - 1] && r[1..] == InsertByKey(m, ms[1..]);
        InsertByKeyMembers(m, ms[1..], r[j]);
      }
      assert r[1..] == InsertByKey(m, ms[1..]);
    }
  }

  lemma {:induction false} SortByKeyCorrect(ms: seq<Mutation>)
    requires forall i, j :: 0 <= i < j < |ms| ==> ms[i].key != ms[j].key
    ensures MutsAscending(SortByKey(ms))
    ensures forall k :: Find(SortByKey(ms), k) == Find(ms, k)
    decreases |ms|
  {
    if ms != [] {
      SortByKeyCorrect(ms[1..]);
      assert Find(ms[1..], ms[0].key) == None;
      InsertByKeyAscends(ms[0], SortByKey(ms[1..]));
      forall k ensures Find(SortByKey(ms), k) == Find(ms, k) {
        InsertByKeyFinds(ms[0], SortByKey(ms[1..]), k);
      }
    }
  }

  method LatestByKey(muts: seq<Mutation>, prefix: Bytes) returns (latest: map<Key, Mutation>)
    ensures forall k :: k in latest <==> HasPrefix(k, prefix) && Writes(muts, k)
    ensures forall k :: k in latest ==> LastWrite(muts, k) == Some(latest[k])
  {
    latest := map[];
    var i := 0;
    while i < |muts|
      invariant 0 <= i <= |muts|
      invariant forall k :: k in latest <==> HasPrefix(k, prefix) && Writes(muts[..i], k)
      invariant forall k :: k in latest ==> LastWrite(muts[..i], k) == Some(latest[k])
    {
      assert muts[..i + 1][..i] == muts[..i];
      forall k ensures Writes(muts[..i + 1], k) <==> muts[i].key == k || Writes(muts[..i], k) {
        WritesSnoc(muts[..i + 1], k);
      }
      if HasPrefix(muts[i].key, prefix) {
        latest := latest[muts[i].key := muts[i]];
      }
      i := i + 1;
    }
    assert muts[..i] == muts;
  }

  /** The map's values in whatever order the map yields them. */
  method MapValues(latest: map<Key, Mutation>) returns (out: seq<Mutation>)
    requires forall k :: k in latest ==> latest[k].key == k
    ensures forall i, j :: 0 <= i < j < |out| ==> out[i].key != out[j].key
    ensures forall k :: Find(out, k) == if k in latest then Some(latest[k]) else None
  {
    out := [];
    var todo := latest.Keys;
    while todo != {}
      invariant todo <= latest.Keys
      invariant forall i, j :: 0 <= i < j < |out| ==> out[i].key != out[j].key
      invariant forall k :: Find(out, k) == if k in latest && k !in todo then Some(latest[k]) else None
      decreases |todo|
    {
      var k :| k in todo;
      ghost var before := out;
      out := out + [latest[k]];
      todo := todo - {k};
      forall x ensures Find(out, x) == if x in latest && x !in todo then Some(latest[x]) else None {
        FindSnoc(before, latest[k], x);
      }
      forall i | 0 <= i < |before| ensures before[i].key != k {
        FindHits(before, i);
      }
    }
  }

  method BufferedForPrefix(muts: seq<Mutation>, prefix: Bytes) returns (out: seq<Mutation>)
    ensures IsBufferedForPrefix(out, muts, prefix)
  {
    var latest := LatestByKey(muts, prefix);
    out := MapValues(latest);
    SortByKeyCorrect(out);
    out := SortByKey(out);
  }

  lemma {:induction false} FindSnoc(ms: seq<Mutation>, m: Mutation, k: Key)
    ensures Find(ms + [m], k) == if Find(ms, k).Some? then Find(ms, k) else if m.key == k then Some(m) else None
    decreases |ms|
  {
    if ms == [] {
      assert ms + [m] == [m] && [m][1..] == [];
    } else {
      assert (ms + [m])[1..] == ms[1..] + [m];
      FindSnoc(ms[1..], m, k);
    }
  }

  lemma {:induction false} FindHits(ms: seq<Mutation>, i: nat)
    requires i < |ms|
    ensures Find(ms, ms[i].key).Some?
    decreases |ms|
  {
    if i > 0 { FindHits(ms[1..], i - 1); }
  }

  // ---- The merge ----

  /** What is left to yield from snapshot entries `ss` and buffered mutations `bs`. */
  function Merge(ss: seq<Entry>, bs: seq<Mutation>): seq<Entry>
    decreases |ss| + |bs|
  {
    if bs != [] && (ss == [] || Le(bs[0].key, ss[0].0)) then
      var rest := Merge(if ss != [] && ss[0].0 == bs[0].key then ss[1..] else ss, bs[1..]);
      if bs[0].delete then rest else [(bs[0].key, bs[0].value)] + rest
    else if ss != [] then [ss[0]] + Merge(ss[1..], bs)
    else []
  }

  lemma {:induction false} LookupAbsent(es: seq<Entry>, k: Key)
    requires forall i :: 0 <= i < |es| ==> es[i].0 != k
    ensures Lookup(es, k) == None
    decreases |es|
  {
    if es != [] { LookupAbsent(es[1..], k); }
  }

  lemma {:induction false} FindAbsent(ms: seq<Mutation>, k: Key)
    requires forall i :: 0 <= i < |ms| ==> ms[i].key != k
    ensures Find(ms, k) == None
    decreases |ms|
  {
    if ms != [] { FindAbsent(ms[1..], k); }
  }

  /** A key below the head of an ascending list is not in it. */
  lemma {:induction false} LookupBelow(es: seq<Entry>, k: Key)
    requires EntriesAscending(es) && es != [] && Lt(k, es[0].0)
    ensures Lookup(es, k) == None
  {
    forall i | 0 <= i < |es| ensures es[i].0 != k {
      LtIrreflexive(k);
      if i > 0 { LtTransitive(k, es[0].0, es[i].0); }
    }
    LookupAbsent(es, k);
  }

  lemma {:induction false} FindBelow(ms: seq<Mutation>, k: Key)
    requires MutsAscending(ms) && ms != [] && Lt(k, ms[0].key)
    ensures Find(ms, k) == None
  {
    forall i | 0 <= i < |ms| ensures ms[i].key != k {
      LtIrreflexive(k);
      if i > 0 { LtTransitive(k, ms[0].key, ms[i].key); }
    }
    FindAbsent(ms, k);
  }

  /** A buffered write decides its key, a buffered delete hides it, the snapshot has the rest. */
  function MergedValue(ss: seq<Entry>, bs: seq<Mutation>, k: Key): Option<Bytes> {
    match Find(bs, k)
    case Some(m) => if m.delete then None else Some(m.value)
    case None => Lookup(ss, k)
  }

  lemma {:induction false} MergeLookup(ss: seq<Entry>, bs: seq<Mutation>, k: Key)
    requires EntriesAscending(ss) && MutsAscending(bs)
    ensures Lookup(Merge(ss, bs), k) == MergedValue(ss, bs, k)
    decreases |ss| + |bs|
  {
    if bs != [] && (ss == [] || Le(bs[0].key, ss[0].0)) {
      var ss' := if ss != [] && ss[0].0 == bs[0].key then ss[1..] else ss;
      MergeLookup(ss', bs[1..], k);
      if k == bs[0].key {
        BelowTails(ss', bs, k);
      }
      if !bs[0].delete {
        assert Merge(ss, bs)[1..] == Merge(ss', bs[1..]);
      }
    } else if ss != [] {
      MergeLookup(ss[1..], bs, k);
      assert Merge(ss, bs)[1..] == Merge(ss[1..], bs);
      if k == ss[0].0 && bs != [] {
        LtTotal(bs[0].key, k);
        FindBelow(bs, k);
      }
    }
  }

  lemma {:induction false} BelowTails(ss: seq<Entry>, bs: seq<Mutation>, k: Key)
    requires EntriesAscending(ss) && MutsAscending(bs) && bs != [] && bs[0].key == k
    requires ss != [] ==> Lt(k, ss[0].0)
    ensures Find(bs[1..], k) == None && Lookup(ss, k) == None
  {
    if |bs| > 1 { FindBelow(bs[1..], k); }
    if ss != [] { LookupBelow(ss, k); }
  }

  ghost predicate AllAbove(es: seq<Entry>, k: Key) {
    forall i :: 0 <= i < |es| ==> Lt(k, es[i].0)
  }

  /** Everything a merge yields lies above a bound that both inputs lie above. */
  lemma {:induction false} MergeAbove(ss: seq<Entry>, bs: seq<Mutation>, k: Key)
    requires AllAbove(ss, k) && forall i :: 0 <= i < |bs| ==> Lt(k, bs[i].key)
    ensures AllAbove(Merge(ss, bs), k)
    decreases |ss| + |bs|
  {
    if bs != [] && (ss == [] || Le(bs[0].key, ss[0].0)) {
      MergeAbove(if ss != [] && ss[0].0 == bs[0].key then ss[1..] else ss, bs[1..], k);
    } else if ss != [] {
      MergeAbove(ss[1..], bs, k);
    }
  }

  lemma {:induction false} MergeAscends(ss: seq<Entry>, bs: seq<Mutation>)
    requires EntriesAscending(ss) && MutsAscending(bs)
    ensures EntriesAscending(Merge(ss, bs))
    decreases |ss| + |bs|
  {
    var r := Merge(ss, bs);
    if bs != [] && (ss == [] || Le(bs[0].key, ss[0].0)) {
      var ss' := if ss != [] && ss[0].0 == bs[0].key then ss[1..] else ss;
      var k := bs[0].key;
      MergeAscends(ss', bs[1..]);
      forall i | 0 <= i < |ss'| ensures Lt(k, ss'[i].0) {
        if ss' == ss && i > 0 { LtTransitive(k, ss[0].0, ss[i].0); }
      }
      MergeAbove(ss', bs[1..], k);
    } else if ss != [] {
      var k := ss[0].0;
      MergeAscends(ss[1..], bs);
      forall i | 0 <= i < |bs| ensures Lt(k, bs[i].key) {
        LtTotal(bs[0].key, k);
        if i > 0 { LtTransitive(k, bs[0].key, bs[i].key); }
      }
      MergeAbove(ss[1..], bs, k);
    }
  }

  // ---- The iterator objects ----

  /** First position whose key is at least `k` (Badger's Seek, `sort.Search`). */
  function SeekEntries(es: seq<Entry>, k: Key): (r: nat)
    ensures r <= |es|
    ensures r < |es| ==> Le(k, es[r].0)
    ensures forall i :: 0 <= i < r ==> Lt(es[i].0, k)
    decreases |es|
  {
    LtTotal(k, if es == [] then [] else es[0].0);
    if es == [] || Le(k, es[0].0) then 0 else 1 + SeekEntries(es[1..], k)
  }

  function SeekMuts(ms: seq<Mutation>, k: Key): (r: nat)
    ensures r <= |ms|
    ensures r < |ms| ==> Le(k, ms[r].key)
    ensures forall i :: 0 <= i < r ==> Lt(ms[i].key, k)
    decreases |ms|
  {
    LtTotal(k, if ms == [] then [] else ms[0].key);
    if ms == [] || Le(k, ms[0].key) then 0 else 1 + SeekMuts(ms[1..], k)
  }

  /** The entries an iterator standing at `pos` still yields: it ends at the first key
      without the prefix. */
  function PrefixRun(es: seq<Entry>, pos: nat, prefix: Bytes): (r: seq<Entry>)
    requires pos <= |es|
    ensures r <= es[pos..]
    decreases |es| - pos
  {
    if pos < |es| && HasPrefix(es[pos].0, prefix) then [es[pos]] + PrefixRun(es, pos + 1, prefix) else []
  }

  /** The store's own iterator: it walks the whole snapshot and reports invalid off the prefix. */
  class SnapshotIterator {
    const entries: seq<Entry>
    const prefix: Bytes
    var pos: nat

    constructor (entries: seq<Entry>, prefix: Bytes)
      ensures this.entries == entries && this.prefix == prefix && pos == |entries|
    {
      this.entries := entries;
      this.prefix := prefix;
      pos := |entries|;
    }

    predicate Valid()
      reads this
    {
      pos < |entries| && HasPrefix(entries[pos].0, prefix)
    }

    method Rewind()
      modifies this
      ensures pos == SeekEntries(entries, prefix)
    {
      pos := SeekEntries(entries, prefix);
    }

    method Seek(k: Key)
      modifies this
      ensures pos == SeekEntries(entries, k)
    {
      pos := SeekEntries(entries, k);
    }

    method Next()
      requires Valid()
      modifies this
      ensures pos == old(pos) + 1
    {
      pos := pos + 1;
    }
  }

  class MergedIterator {
    const store: SnapshotIterator
    const buf: seq<Mutation>
    var bi: nat
    var curKey: Key
    var curVal: Bytes
    var valid: bool

    constructor (store: SnapshotIterator, buf: seq<Mutation>)
      ensures this.store == store && this.buf == buf && bi == 0 && !valid
    {
      this.store := store;
      this.buf := buf;
      bi, curKey, curVal, valid := 0, [], [], false;
    }

    ghost predicate InRange()
      reads this, store
    {
      store.pos <= |store.entries| && bi <= |buf|
    }

    /** What the iterator has still to yield. */
    function Remaining(): seq<Entry>
      requires InRange()
      reads this, store
    {
      Merge(PrefixRun(store.entries, store.pos, store.prefix), buf[bi..])
    }

    /** Consumes exactly the next merged entry, or reports the end. */
    method Produce()
      requires InRange()
      modifies this, store
      ensures InRange()
      ensures valid == (old(Remaining()) != [])
      ensures valid ==> (curKey, curVal) == old(Remaining())[0] && Remaining() == old(Remaining())[1..]
      ensures !valid ==> Remaining() == []
    {
      while true
        invariant InRange() && Remaining() == old(Remaining())
        decreases |buf| - bi
      {
        var sValid := store.Valid();
        var bValid := bi < |buf|;
        ghost var run := PrefixRun(store.entries, store.pos, store.prefix);
        assert sValid ==> run == [store.entries[store.pos]] + PrefixRun(store.entries, store.pos + 1, store.prefix);
        assert bValid ==> buf[bi..][0] == buf[bi] && buf[bi..][1..] == buf[bi + 1..];
        if !sValid && !bValid {
          valid := false;
          return;
        } else if bValid && (!sValid || Le(buf[bi].key, store.entries[store.pos].0)) {
          var b := buf[bi];
          assert sValid ==> run[1..] == PrefixRun(store.entries, store.pos + 1, store.prefix);
          if sValid && b.key == store.entries[store.pos].0 {
            store.Next();
          }
          bi := bi + 1;
          if b.delete {
            continue;
          }
          curKey, curVal, valid := b.key, b.value, true;
          return;
        } else {
          curKey, curVal := store.entries[store.pos].0, store.entries[store.pos].1;
          assert run[1..] == PrefixRun(store.entries, store.pos + 1, store.prefix);
          store.Next();
          valid := true;
          return;
        }
      }
    }

    method Rewind()
      modifies this, store
      ensures InRange()
      ensures var walk := Merge(PrefixRun(store.entries, SeekEntries(store.entries, store.prefix), store.prefix), buf);
        && valid == (walk != [])
        && Remaining() == (if valid then walk[1..] else [])
        && (valid ==> (curKey, curVal) == walk[0])
    {
      store.Rewind();
      bi := 0;
      assert buf[0..] == buf;
      Produce();
    }

    method Seek(k: Key)
      modifies this, store
      ensures InRange()
      ensures var walk := Merge(PrefixRun(store.entries, SeekEntries(store.entries, k), store.prefix),
                                buf[SeekMuts(buf, k)..]);
        && valid == (walk != [])
        && Remaining() == (if valid then walk[1..] else [])
        && (valid ==> (curKey, curVal) == walk[0])
    {
      store.Seek(k);
      bi := SeekMuts(buf, k);
      Produce();
    }
  }

  function ScanResult(entries: seq<Entry>, prefix: Bytes, buf: seq<Mutation>, from: Option<Key>): seq<Entry> {
    var k := if from.Some? then from.value else prefix;
    Merge(PrefixRun(entries, SeekEntries(entries, k), prefix),
          if from.Some? then buf[SeekMuts(buf, k)..] else buf)
  }

  /** The loop `for ; it.Valid(); it.Next()`. */
  method Drain(it: MergedIterator) returns (out: seq<Entry>)
    requires it.InRange()
    modifies it, it.store
    ensures out == if old(it.valid) then [(old(it.curKey), old(it.curVal))] + old(it.Remaining()) else []
  {
    out := [];
    ghost var all := if it.valid then [(it.curKey, it.curVal)] + it.Remaining() else [];
    while it.valid
      invariant it.InRange()
      invariant all == out + (if it.valid then [(it.curKey, it.curVal)] + it.Remaining() else [])
      decreases it.valid, |it.Remaining()|
    {
      out := out + [(it.curKey, it.curVal)];
      ghost var rest := it.Remaining();
      it.Produce();
      assert it.valid ==> rest == [(it.curKey, it.curVal)] + it.Remaining();
    }
  }

  /** A whole scan, from the start of the prefix or from a sought key. */
  method Walk(it: MergedIterator, from: Option<Key>) returns (out: seq<Entry>)
    modifies it, it.store
    ensures out == ScanResult(it.store.entries, it.store.prefix, it.buf, from)
  {
    if from.Some? {
      it.Seek(from.value);
    } else {
      it.Rewind();
    }
    out := Drain(it);
  }

  // ---- What a scan yields ----

  /** `es` is the iterator's view of the store at a read timestamp. */
  ghost predicate IsSnapshot(es: seq<Entry>, vs: VersionMap, ts: nat) {
    EntriesAscending(es) && forall k :: Lookup(es, k) == ReadAt(vs, k, ts)
  }

  lemma {:induction false} LookupHits(es: seq<Entry>, i: nat)
    requires EntriesAscending(es) && i < |es|
    ensures Lookup(es, es[i].0) == Some(es[i].1)
    decreases |es|
  {
    if i > 0 {
      LtIrreflexive(es[i].0);
      LookupHits(es[1..], i - 1);
    }
  }

  lemma {:induction false} LookupDrop(es: seq<Entry>, n: nat, k: Key)
    requires EntriesAscending(es) && n <= |es|
    requires forall i :: 0 <= i < n ==> es[i].0 != k
    ensures Lookup(es[n..], k) == Lookup(es, k)
    decreases n
  {
    if n == 0 {
      assert es[0..] == es;
    } else {
      LookupDrop(es[1..], n - 1, k);
      assert es[1..][n - 1..] == es[n..];
    }
  }

  lemma {:induction false} FindDrop(ms: seq<Mutation>, n: nat, k: Key)
    requires n <= |ms|
    requires forall i :: 0 <= i < n ==> ms[i].key != k
    ensures Find(ms[n..], k) == Find(ms, k)
    decreases n
  {
    if n == 0 {
      assert ms[0..] == ms;
    } else {
      FindDrop(ms[1..], n - 1, k);
      assert ms[1..][n - 1..] == ms[n..];
    }
  }

  /** From a position on a key with the prefix, the run holds exactly the later keys with it. */
  lemma {:induction false} RunLookup(es: seq<Entry>, pos: nat, prefix: Bytes, k: Key)
    requires EntriesAscending(es) && pos < |es| && HasPrefix(es[pos].0, prefix)
    ensures Lookup(PrefixRun(es, pos, prefix), k) == if HasPrefix(k, prefix) then Lookup(es[pos..], k) else None
    decreases |es| - pos
  {
    var r := PrefixRun(es, pos, prefix);
    assert r[1..] == PrefixRun(es, pos + 1, prefix) && es[pos..][1..] == es[pos + 1..];
    if k != es[pos].0 {
      if pos + 1 < |es| && HasPrefix(es[pos + 1].0, prefix) {
        RunLookup(es, pos + 1, prefix, k);
      } else if HasPrefix(k, prefix) {
        var tail := es[pos + 1..];
        forall i | 0 <= i < |tail| ensures tail[i].0 != k {
          if tail[i].0 == k { PrefixConvex(prefix, es[pos].0, tail[0].0, k); }
        }
        LookupAbsent(tail, k);
      }
    }
  }

  /** The snapshot side of a scan, given where the seek landed. */
  lemma {:induction false} SeekRunLookup(es: seq<Entry>, prefix: Bytes, from: Key, k: Key)
    requires EntriesAscending(es)
    ensures var pos := SeekEntries(es, from);
      Lookup(PrefixRun(es, pos, prefix), k) ==
        if pos < |es| && HasPrefix(es[pos].0, prefix) && HasPrefix(k, prefix) && Le(from, k) then Lookup(es, k)
        else None
  {
    var pos := SeekEntries(es, from);
    if pos < |es| && HasPrefix(es[pos].0, prefix) {
      RunLookup(es, pos, prefix, k);
      if Le(from, k) {
        forall i | 0 <= i < pos ensures es[i].0 != k { LtTotal(es[i].0, from); }
        LookupDrop(es, pos, k);
      } else {
        forall i | 0 <= i < |es| - pos ensures es[pos..][i].0 != k {
          LeTransitive(from, es[pos].0, es[pos + i].0);
        }
        LookupAbsent(es[pos..], k);
      }
    }
  }

  lemma {:induction false} SeekMutsFind(ms: seq<Mutation>, from: Key, k: Key)
    requires MutsAscending(ms)
    ensures Find(ms[SeekMuts(ms, from)..], k) == if Le(from, k) then Find(ms, k) else None
  {
    var n := SeekMuts(ms, from);
    if Le(from, k) {
      forall i | 0 <= i < n ensures ms[i].key != k { LtTotal(ms[i].key, from); }
      FindDrop(ms, n, k);
    } else {
      forall i | 0 <= i < |ms| - n ensures ms[n..][i].key != k {
        LeTransitive(from, ms[n].key, ms[n + i].key);
      }
      FindAbsent(ms[n..], k);
    }
  }

  /** What the scan should yield for `k`: what `Get` returns, within prefix and bound. */
  function Expected(vs: VersionMap, ts: nat, muts: seq<Mutation>, prefix: Bytes, from: Key, k: Key): Option<Bytes> {
    if HasPrefix(k, prefix) && Le(from, k) then Overlay(muts, k, ReadAt(vs, k, ts)) else None
  }

  /** The seek ends on a key of the prefix or past the last key, or else the buffer already
      decides every snapshot key it should have reached. */
  ghost predicate SeekReaches(es: seq<Entry>, muts: seq<Mutation>, prefix: Bytes, from: Key) {
    var pos := SeekEntries(es, from);
    || pos == |es| || HasPrefix(es[pos].0, prefix)
    || forall k :: HasPrefix(k, prefix) && Le(from, k) && Lookup(es, k).Some? ==> Writes(muts, k)
  }

  lemma {:induction false} ScanLookup(es: seq<Entry>, muts: seq<Mutation>, buf: seq<Mutation>, prefix: Bytes,
                                      from: Key, k: Key)
    requires EntriesAscending(es) && IsBufferedForPrefix(buf, muts, prefix)
    ensures var pos := SeekEntries(es, from);
      Lookup(ScanResult(es, prefix, buf, Some(from)), k) ==
        if !HasPrefix(k, prefix) || !Le(from, k) then None
        else Overlay(muts, k, if pos < |es| && HasPrefix(es[pos].0, prefix) then Lookup(es, k) else None)
  {
    var pos := SeekEntries(es, from);
    var run, bs := PrefixRun(es, pos, prefix), buf[SeekMuts(buf, from)..];
    MergeLookup(run, bs, k);
    SeekRunLookup(es, prefix, from, k);
    SeekMutsFind(buf, from, k);
  }

  /** Walking from Seek(k): strictly ascending keys, each once; and the yielded entries are exactly
      the transaction's view of the keys at or above k under the prefix if and only if the seek
      reaches that range. */
  lemma {:induction false} SeekScanIsView(es: seq<Entry>, vs: VersionMap, ts: nat, muts: seq<Mutation>,
                                          buf: seq<Mutation>, prefix: Bytes, from: Key)
    requires IsSnapshot(es, vs, ts) && IsBufferedForPrefix(buf, muts, prefix)
    ensures EntriesAscending(ScanResult(es, prefix, buf, Some(from)))
    ensures SeekReaches(es, muts, prefix, from) <==>
      forall k :: Lookup(ScanResult(es, prefix, buf, Some(from)), k) == Expected(vs, ts, muts, prefix, from, k)
  {
    MergeAscends(PrefixRun(es, SeekEntries(es, from), prefix), buf[SeekMuts(buf, from)..]);
    var r := ScanResult(es, prefix, buf, Some(from));
    forall k ensures Lookup(r, k) == Expected(vs, ts, muts, prefix, from, k) <==>
        (var pos := SeekEntries(es, from);
         pos == |es| || HasPrefix(es[pos].0, prefix) || !HasPrefix(k, prefix) || !Le(from, k)
         || Lookup(es, k).None? || Writes(muts, k))
    {
      ScanLookup(es, muts, buf, prefix, from, k);
      if SeekEntries(es, from) == |es| && HasPrefix(k, prefix) && Le(from, k) {
        NothingAtOrAbove(es, from, k);
      }
    }
  }

  lemma {:induction false} NothingAtOrAbove(es: seq<Entry>, from: Key, k: Key)
    requires SeekEntries(es, from) == |es| && Le(from, k)
    ensures Lookup(es, k) == None
  {
    forall i | 0 <= i < |es| ensures es[i].0 != k { LtTotal(es[i].0, from); }
    LookupAbsent(es, k);
  }

  /** A bound under the prefix, which is what every caller passes, always reaches. */
  lemma {:induction false} SeekUnderPrefixReaches(es: seq<Entry>, muts: seq<Mutation>, prefix: Bytes, from: Key)
    requires EntriesAscending(es) && HasPrefix(from, prefix)
    ensures SeekReaches(es, muts, prefix, from)
  {
    var pos := SeekEntries(es, from);
    if pos < |es| && !HasPrefix(es[pos].0, prefix) {
      forall k | HasPrefix(k, prefix) && Le(from, k) ensures Lookup(es, k).None? {
        forall i | 0 <= i < |es| ensures es[i].0 != k {
          LtTotal(es[i].0, from);
          if i >= pos && es[i].0 == k { PrefixConvex(prefix, from, es[pos].0, k); }
        }
        LookupAbsent(es, k);
      }
    }
  }

  /** Walking from Rewind yields the transaction's whole view of the prefix, in key order. */
  lemma {:induction false} RewindScanIsView(es: seq<Entry>, vs: VersionMap, ts: nat, muts: seq<Mutation>,
                                            buf: seq<Mutation>, prefix: Bytes)
    requires IsSnapshot(es, vs, ts) && IsBufferedForPrefix(buf, muts, prefix)
    ensures EntriesAscending(ScanResult(es, prefix, buf, None))
    ensures forall k :: Lookup(ScanResult(es, prefix, buf, None), k) == Expected(vs, ts, muts, prefix, prefix, k)
    ensures forall k :: HasPrefix(k, prefix) ==>
      Lookup(ScanResult(es, prefix, buf, None), k) == Overlay(muts, k, ReadAt(vs, k, ts))
  {
    SeekUnderPrefixReaches(es, muts, prefix, prefix);
    SeekScanIsView(es, vs, ts, muts, buf, prefix, prefix);
    RewindIsSeek(es, buf, prefix);
    forall k | HasPrefix(k, prefix) ensures Le(prefix, k) { PrefixLe(prefix, k); }
  }

  lemma {:induction false} RewindIsSeek(es: seq<Entry>, buf: seq<Mutation>, prefix: Bytes)
    requires MutsAscending(buf) && forall k :: Find(buf, k).Some? ==> HasPrefix(k, prefix)
    ensures ScanResult(es, prefix, buf, None) == ScanResult(es, prefix, buf, Some(prefix))
  {
    var n := SeekMuts(buf, prefix);
    if n > 0 {
      LtTotal(prefix, buf[0].key);
      FindHits(buf, 0);
      PrefixLe(prefix, buf[0].key);
    }
    assert buf[0..] == buf;
  }

  /** A bound below the prefix can land on a foreign key and end the snapshot side at once. */
  lemma {:induction false} SeekBelowPrefixMisses()
    ensures var es := [([0], [9]), ([5], [1])];
      && EntriesAscending(es) && IsBufferedForPrefix([], [], [5])
      && ScanResult(es, [5], [], Some([0])) == [] && Lookup(es, [5]) == Some([1]) && Le([0], [5])
  {
    var es: seq<Entry> := [([0], [9]), ([5], [1])];
    assert SeekEntries(es, [0]) == 0;
    assert es[0].0[0] != [5][0];
    assert es[1..][0] == ([5], [1]);
  }
}
