/** The key encoder (engine/internal/storage/keys.go): a structural path followed by
    length-prefixed binary tails, and the facts every scan relies on: families, branches and tables
    occupy disjoint key ranges, and a key determines what it was built from. */
module Keys {
  import opened Bytes
  import opened OrderEncoding

  const SLASH: byte := 47
  const NS: Bytes := [47, 110, 115, 47]           // "/ns/"
  const MAIN: Bytes := [47, 109, 97, 105, 110]    // "/main"
  const BR: Bytes := [47, 98, 114, 47]            // "/br/"
  const DATA: Bytes := [47, 100, 97, 116, 97]     // "/data"
  const IDX: Bytes := [47, 105, 100, 120]         // "/idx"

  const MAIN_NAME: Bytes := [109, 97, 105, 110]   // "main"

  predicate NoSlash(s: Bytes) {
    SLASH !in s
  }

  function NsRoot(ns: Bytes): Bytes {
    [1] + NS + ns
  }

  function BranchSegment(branch: Bytes): Bytes {
    if branch == MAIN_NAME || branch == [] then MAIN else BR + branch
  }

  /** `appendBin`: '/', a 4-byte length (truncated to 32 bits), the bytes. */
  function Bin(bin: Bytes): Bytes {
    [SLASH] + PkTail(bin)
  }

  function PkTail(pk: Bytes): Bytes {
    BigEndian(|pk| % 0x1_0000_0000, 4) + pk
  }

  /** ".../data/": everything relational on one branch. */
  function DataRoot(ns: Bytes, branch: Bytes): Bytes {
    NsRoot(ns) + BranchSegment(branch) + DATA + [SLASH]
  }

  function RowPrefix(ns: Bytes, branch: Bytes, table: Bytes): Bytes {
    NsRoot(ns) + BranchSegment(branch) + DATA + [SLASH] + table + [SLASH]
  }

  function RowKey(ns: Bytes, branch: Bytes, table: Bytes, pk: Bytes): Bytes {
    NsRoot(ns) + BranchSegment(branch) + DATA + [SLASH] + table + Bin(pk)
  }

  function IndexColumnPrefix(ns: Bytes, branch: Bytes, table: Bytes, name: Bytes): Bytes {
    NsRoot(ns) + BranchSegment(branch) + IDX + [SLASH] + table + [SLASH] + name + [SLASH]
  }

  function IndexKey(ns: Bytes, branch: Bytes, table: Bytes, name: Bytes, val: Bytes, pk: Bytes): Bytes {
    IndexColumnPrefix(ns, branch, table, name) + val + Bin(pk)
  }

  function IndexValuePrefix(ns: Bytes, branch: Bytes, table: Bytes, name: Bytes, val: Bytes): Bytes {
    IndexColumnPrefix(ns, branch, table, name) + val
  }

  // ---- Splitting ----

  lemma {:induction false} PrefixCancel(p: Bytes, x: Bytes, y: Bytes)
    ensures HasPrefix(p + x, p + y) <==> HasPrefix(x, y)
    ensures p + x == p + y <==> x == y
  {
    assert (p + x)[|p|..] == x && (p + y)[|p|..] == y;
    if HasPrefix(x, y) {
      assert x == y + x[|y|..];
      assert p + x == (p + y) + x[|y|..];
    }
    if HasPrefix(p + x, p + y) {
      assert (p + x)[..|p + y|] == p + y;
      assert x[..|y|] == (p + x)[..|p + y|][|p|..] == (p + y)[|p|..] == y;
    }
  }

  /** Two '/'-free segments closed by '/' never both start one key, unless they are equal. */
  lemma {:induction false} SegmentsDisjoint(s: Bytes, t: Bytes, k: Bytes)
    requires NoSlash(s) && NoSlash(t)
    requires HasPrefix(k, s + [SLASH]) && HasPrefix(k, t + [SLASH])
    ensures s == t
  {
    assert k[|s|] == SLASH && k[|t|] == SLASH;
    assert k[..|s|] == s && k[..|t|] == t;
  }

  // ---- Rows ----

  lemma {:induction false} RowKeyShape(ns: Bytes, branch: Bytes, table: Bytes, pk: Bytes)
    ensures RowKey(ns, branch, table, pk) == RowPrefix(ns, branch, table) + PkTail(pk)
    ensures RowPrefix(ns, branch, table) == DataRoot(ns, branch) + (table + [SLASH])
    ensures HasPrefix(RowKey(ns, branch, table, pk), RowPrefix(ns, branch, table))
  {
    hide PkTail;
    var p := NsRoot(ns) + BranchSegment(branch) + DATA + [SLASH] + table;
    assert p + ([SLASH] + PkTail(pk)) == p + [SLASH] + PkTail(pk);
  }

  /** A key tail determines the primary key, whatever its length. */
  lemma {:induction false} PkTailInjective(a: Bytes, b: Bytes)
    requires PkTail(a) == PkTail(b)
    ensures a == b
  {
    hide BigEndian;
    assert a == PkTail(a)[4..] && b == PkTail(b)[4..];
  }

  lemma {:induction false} RowKeyInjective(ns: Bytes, branch: Bytes, table: Bytes, a: Bytes, b: Bytes)
    ensures RowKey(ns, branch, table, a) == RowKey(ns, branch, table, b) <==> a == b
  {
    hide PkTail;
    RowKeyShape(ns, branch, table, a);
    RowKeyShape(ns, branch, table, b);
    PrefixCancel(RowPrefix(ns, branch, table), PkTail(a), PkTail(b));
    if PkTail(a) == PkTail(b) { PkTailInjective(a, b); }
  }

  /** Rows of one table are scanned in the order of their length-prefixed keys. */
  lemma {:induction false} RowKeyOrder(ns: Bytes, branch: Bytes, table: Bytes, a: Bytes, b: Bytes)
    ensures Lt(RowKey(ns, branch, table, a), RowKey(ns, branch, table, b)) <==> Lt(PkTail(a), PkTail(b))
  {
    hide PkTail;
    RowKeyShape(ns, branch, table, a);
    RowKeyShape(ns, branch, table, b);
    LtCommonPrefix(RowPrefix(ns, branch, table), PkTail(a), PkTail(b));
  }

  /** No key belongs to two tables of a branch. */
  lemma {:induction false} TablesDisjoint(ns: Bytes, branch: Bytes, s: Bytes, t: Bytes, k: Bytes)
    requires NoSlash(s) && NoSlash(t)
    requires HasPrefix(k, RowPrefix(ns, branch, s)) && HasPrefix(k, RowPrefix(ns, branch, t))
    ensures s == t
  {
    var root := DataRoot(ns, branch);
    RowKeyShape(ns, branch, s, []);
    RowKeyShape(ns, branch, t, []);
    assert k == root + k[|root|..];
    PrefixCancel(root, k[|root|..], s + [SLASH]);
    PrefixCancel(root, k[|root|..], t + [SLASH]);
    SegmentsDisjoint(s, t, k[|root|..]);
  }

  /** A feature branch and main share no key: "/br/..." and "/main" part at the second byte. */
  lemma {:induction false} MainAndBranchDisjoint(ns: Bytes, branch: Bytes, k: Bytes)
    requires branch != MAIN_NAME && branch != []
    ensures !(HasPrefix(k, DataRoot(ns, MAIN_NAME)) && HasPrefix(k, DataRoot(ns, branch)))
  {
    var n := |NsRoot(ns)|;
    assert DataRoot(ns, MAIN_NAME)[n + 1] == 109;
    assert DataRoot(ns, branch)[n + 1] == 98;
    assert HasPrefix(k, DataRoot(ns, MAIN_NAME)) ==> k[n + 1] == DataRoot(ns, MAIN_NAME)[n + 1];
    assert HasPrefix(k, DataRoot(ns, branch)) ==> k[n + 1] == DataRoot(ns, branch)[n + 1];
  }

  /** Row keys and index keys share no key. */
  lemma {:induction false} DataAndIndexDisjoint(ns: Bytes, branch: Bytes, t: Bytes, u: Bytes, name: Bytes, k: Bytes)
    ensures !(HasPrefix(k, RowPrefix(ns, branch, t)) && HasPrefix(k, IndexColumnPrefix(ns, branch, u, name)))
  {
    var n := |NsRoot(ns) + BranchSegment(branch)|;
    assert RowPrefix(ns, branch, t)[n + 1] == 100;
    assert IndexColumnPrefix(ns, branch, u, name)[n + 1] == 105;
    assert HasPrefix(k, RowPrefix(ns, branch, t)) ==> k[n + 1] == RowPrefix(ns, branch, t)[n + 1];
    assert HasPrefix(k, IndexColumnPrefix(ns, branch, u, name)) ==>
      k[n + 1] == IndexColumnPrefix(ns, branch, u, name)[n + 1];
  }

  // ---- Index entries ----

  lemma {:induction false} IndexKeyShape(ns: Bytes, branch: Bytes, table: Bytes, name: Bytes, val: Bytes, pk: Bytes)
    ensures IndexKey(ns, branch, table, name, val, pk) == IndexColumnPrefix(ns, branch, table, name) + (val + Bin(pk))
    ensures HasPrefix(IndexKey(ns, branch, table, name, val, pk), IndexColumnPrefix(ns, branch, table, name))
  {
    hide Bin;
  }

  /** No key belongs to two indexes of a table. */
  lemma {:induction false} IndexesDisjoint(ns: Bytes, branch: Bytes, table: Bytes, c: Bytes, d: Bytes, k: Bytes)
    requires NoSlash(c) && NoSlash(d)
    requires HasPrefix(k, IndexColumnPrefix(ns, branch, table, c))
    requires HasPrefix(k, IndexColumnPrefix(ns, branch, table, d))
    ensures c == d
  {
    var root := NsRoot(ns) + BranchSegment(branch) + IDX + [SLASH] + table + [SLASH];
    assert IndexColumnPrefix(ns, branch, table, c) == root + (c + [SLASH]);
    assert IndexColumnPrefix(ns, branch, table, d) == root + (d + [SLASH]);
    assert k == root + k[|root|..];
    PrefixCancel(root, k[|root|..], c + [SLASH]);
    PrefixCancel(root, k[|root|..], d + [SLASH]);
    SegmentsDisjoint(c, d, k[|root|..]);
  }

  /** Entries of one index are ordered by value tuple, then by the row order of their keys. */
  lemma {:induction false} IndexKeyOrder(ns: Bytes, branch: Bytes, table: Bytes, name: Bytes,
                                         a: seq<Value>, p: Bytes, b: seq<Value>, q: Bytes)
    requires SameShape(a, b)
    ensures var x, y := IndexKey(ns, branch, table, name, EncodeTuple(a), p),
                    IndexKey(ns, branch, table, name, EncodeTuple(b), q);
      Lt(x, y) <==> TupleLess(a, b) || (a == b && Lt(PkTail(p), PkTail(q)))
  {
    hide EncodeTuple, PkTail, IndexColumnPrefix;
    IndexKeyShape(ns, branch, table, name, EncodeTuple(a), p);
    IndexKeyShape(ns, branch, table, name, EncodeTuple(b), q);
    LtCommonPrefix(IndexColumnPrefix(ns, branch, table, name), EncodeTuple(a) + Bin(p), EncodeTuple(b) + Bin(q));
    TupleLessTotal(a, b);
    if a == b {
      LtCommonPrefix(EncodeTuple(a), Bin(p), Bin(q));
      LtCommonPrefix([SLASH], PkTail(p), PkTail(q));
    } else {
      TupleDecides(a, b, Bin(p), Bin(q));
    }
  }

  lemma {:induction false} IndexKeyInjective(ns: Bytes, branch: Bytes, table: Bytes, name: Bytes,
                                             a: seq<Value>, p: Bytes, b: seq<Value>, q: Bytes)
    requires SameShape(a, b)
    ensures var x, y := IndexKey(ns, branch, table, name, EncodeTuple(a), p),
                    IndexKey(ns, branch, table, name, EncodeTuple(b), q);
      x == y <==> a == b && p == q
  {
    hide EncodeTuple, PkTail, IndexColumnPrefix;
    IndexKeyShape(ns, branch, table, name, EncodeTuple(a), p);
    IndexKeyShape(ns, branch, table, name, EncodeTuple(b), q);
    PrefixCancel(IndexColumnPrefix(ns, branch, table, name), EncodeTuple(a) + Bin(p), EncodeTuple(b) + Bin(q));
    if EncodeTuple(a) + Bin(p) == EncodeTuple(b) + Bin(q) {
      TuplePrefixFree(a, b, Bin(p), Bin(q));
      PrefixCancel([SLASH], PkTail(p), PkTail(q));
      PkTailInjective(p, q);
    }
  }

  /** The equality prefix matches precisely the entries with that value tuple. */
  lemma {:induction false} ValuePrefixExact(ns: Bytes, branch: Bytes, table: Bytes, name: Bytes,
                                            a: seq<Value>, b: seq<Value>, pk: Bytes)
    requires SameShape(a, b)
    ensures a == b <==>
      HasPrefix(IndexKey(ns, branch, table, name, EncodeTuple(b), pk),
                IndexValuePrefix(ns, branch, table, name, EncodeTuple(a)))
  {
    hide EncodeTuple, Bin, IndexColumnPrefix;
    var k := EncodeTuple(b) + Bin(pk);
    IndexKeyShape(ns, branch, table, name, EncodeTuple(b), pk);
    PrefixCancel(IndexColumnPrefix(ns, branch, table, name), k, EncodeTuple(a));
    if HasPrefix(k, EncodeTuple(a)) {
      var n := |EncodeTuple(a)|;
      assert k == EncodeTuple(a) + k[n..];
      TuplePrefixFree(a, b, k[n..], Bin(pk));
    }
  }

  /** Row 'p' of table 't' of namespace 'n', on main and on branch 'b', and its entry in index 'i' under 'v':
      /ns/n/main/data/t/.., /ns/n/br/b/data/t/.. and /ns/n/main/idx/t/i/v/.. */
  lemma {:induction false} KeyBytes()
    ensures RowKey([110], MAIN_NAME, [116], [112]) ==
      [1] + [47, 110, 115, 47] + [110] + [47, 109, 97, 105, 110] + [47, 100, 97, 116, 97] + [47] + [116]
      + ([47] + ([0, 0, 0, 1] + [112]))
    ensures RowKey([110], [98], [116], [112]) ==
      [1] + [47, 110, 115, 47] + [110] + ([47, 98, 114, 47] + [98]) + [47, 100, 97, 116, 97] + [47] + [116]
      + ([47] + ([0, 0, 0, 1] + [112]))
    ensures IndexKey([110], MAIN_NAME, [116], [105], [118], [112]) ==
      [1] + [47, 110, 115, 47] + [110] + [47, 109, 97, 105, 110] + [47, 105, 100, 120] + [47] + [116] + [47] + [105]
      + [47] + [118] + ([47] + ([0, 0, 0, 1] + [112]))
  {
    hide BigEndian;
    SmallBigEndian(1);
  }
}
