/** Record literals "(a,b,c)": written by `encodeRowText` (engine/internal/executor/eval_ext.go), read by
    `decodeRecordText` (engine/internal/executor/composite.go). */
module RecordText {
  import opened Bytes
  import D = Decimal
  import RC = RowCodec

  const QUOTE: byte := 34
  const OPEN: byte := 40
  const CLOSE: byte := 41
  const COMMA: byte := 44

  predicate NeedsQuotes(s: Bytes) {
    s == [] || OPEN in s || CLOSE in s || COMMA in s || QUOTE in s
  }

  /** Every quote doubled. */
  function Doubled(s: Bytes): Bytes {
    if s == [] then [] else (if s[0] == QUOTE then [QUOTE, QUOTE] else [s[0]]) + Doubled(s[1..])
  }

  function EncodeElem(e: RC.Datum): Bytes {
    if e.Null? then [] else if NeedsQuotes(e.text) then [QUOTE] + Doubled(e.text) + [QUOTE] else e.text
  }

  function Body(elems: seq<RC.Datum>): Bytes
    decreases |elems|
  {
    if elems == [] then []
    else if |elems| == 1 then EncodeElem(elems[0])
    else EncodeElem(elems[0]) + [COMMA] + Body(elems[1..])
  }

  function EncodeRecord(elems: seq<RC.Datum>): Bytes {
    [OPEN] + Body(elems) + [CLOSE]
  }

  /** `encodeRowText`. */
  method EncodeRowText(elems: seq<RC.Datum>) returns (b: Bytes)
    ensures b == EncodeRecord(elems)
  {
    hide EncodeElem;
    b := [OPEN];
    for i := 0 to |elems|
      invariant b == [OPEN] + Body(elems[..i])
    {
      BodySnoc(elems, i);
      if i > 0 {
        b := b + [COMMA];
      }
      b := b + EncodeElem(elems[i]);
    }
    assert elems[..|elems|] == elems;
    b := b + [CLOSE];
  }

  lemma {:induction false} BodySnoc(elems: seq<RC.Datum>, i: nat)
    requires i < |elems|
    ensures Body(elems[..i + 1]) == Body(elems[..i]) + (if i > 0 then [COMMA] else []) + EncodeElem(elems[i])
    decreases i
  {
    hide EncodeElem;
    var s := elems[..i + 1];
    if i == 0 {
      assert s == [elems[0]] && elems[..0] == [];
    } else {
      BodySnoc(elems[1..], i - 1);
      assert s[1..] == elems[1..][..i] && elems[..i][1..] == elems[1..][..i - 1] && elems[1..][i - 1] == elems[i];
      var (x, y, z) := (EncodeElem(elems[0]), Body(elems[1..][..i - 1]), EncodeElem(elems[i]));
      assert Body(s) == x + [COMMA] + Body(elems[1..][..i]);
      if i == 1 {
        assert elems[..1] == [elems[0]] && elems[1..][..0] == [];
      } else {
        assert x + [COMMA] + (y + [COMMA] + z) == x + [COMMA] + y + [COMMA] + z;
      }
    }
  }

  /** An empty element is NULL unless it was quoted. */
  function Elem(text: Bytes, quoted: bool): RC.Datum {
    if text == [] && !quoted then RC.Null else RC.Text(text)
  }

  /** The scanner: `buf` holds the element so far. */
  function Scan(s: Bytes, buf: Bytes, inQuote: bool, quoted: bool): seq<RC.Datum>
    decreases |s|
  {
    if s == [] then [Elem(buf, quoted)]
    else if inQuote then
      if s[0] == QUOTE then
        if |s| > 1 && s[1] == QUOTE then Scan(s[2..], buf + [QUOTE], true, quoted) else Scan(s[1..], buf, false, quoted)
      else Scan(s[1..], buf + [s[0]], true, quoted)
    else if s[0] == QUOTE then Scan(s[1..], buf, true, true)
    else if s[0] == COMMA then [Elem(buf, quoted)] + Scan(s[1..], [], false, false)
    else Scan(s[1..], buf + [s[0]], false, quoted)
  }

  function DecodeRecord(text: Bytes): Option<seq<RC.Datum>> {
    var s := D.TrimSpace(text);
    if |s| < 2 || s[0] != OPEN || s[|s| - 1] != CLOSE then None
    else if |s| == 2 then Some([])
    else Some(Scan(s[1..|s| - 1], [], false, false))
  }

  /** `decodeRecordText`. */
  method DecodeRecordText(text: Bytes) returns (r: Option<seq<RC.Datum>>)
    ensures r == DecodeRecord(text)
  {
    var s := D.TrimSpace(text);
    if |s| < 2 || s[0] != OPEN || s[|s| - 1] != CLOSE {
      return None;
    }
    var body := s[1..|s| - 1];
    if body == [] {
      return Some([]);
    }
    var out, buf, inQuote, quoted := [], [], false, false;
    var i := 0;
    assert body[0..] == body;
    while i < |body|
      invariant 0 <= i <= |body|
      invariant out + Scan(body[i..], buf, inQuote, quoted) == Scan(body, [], false, false)
    {
      var c := body[i];
      ghost var rest := body[i..];
      assert rest[0] == c && rest[1..] == body[i + 1..];
      if inQuote {
        if c == QUOTE {
          if i + 1 < |body| && body[i + 1] == QUOTE {
            assert rest[1] == QUOTE && rest[2..] == body[i + 2..];
            buf, i := buf + [QUOTE], i + 2;
            continue;
          }
          inQuote, i := false, i + 1;
          continue;
        }
        buf, i := buf + [c], i + 1;
        continue;
      }
      if c == QUOTE {
        inQuote, quoted, i := true, true, i + 1;
      } else if c == COMMA {
        assert out + ([Elem(buf, quoted)] + Scan(body[i + 1..], [], false, false)) ==
          out + [Elem(buf, quoted)] + Scan(body[i + 1..], [], false, false);
        out, buf, quoted, i := out + [Elem(buf, quoted)], [], false, i + 1;
      } else {
        buf, i := buf + [c], i + 1;
      }
    }
    assert body[|body|..] == [];
    return Some(out + [Elem(buf, quoted)]);
  }

  // ---- The round trip ----

  lemma {:induction false} PlainRun(t: Bytes, s: Bytes, buf: Bytes)
    requires QUOTE !in t && COMMA !in t
    ensures Scan(t + s, buf, false, false) == Scan(s, buf + t, false, false)
    decreases |t|
  {
    if t == [] {
      assert t + s == s && buf + t == buf;
    } else {
      PlainRun(t[1..], s, buf + [t[0]]);
      assert (t + s)[0] == t[0] && (t + s)[1..] == t[1..] + s;
      assert buf + [t[0]] + t[1..] == buf + t;
    }
  }

  lemma {:induction false} QuotedRun(t: Bytes, s: Bytes, buf: Bytes)
    requires s == [] || s[0] != QUOTE
    ensures Scan(Doubled(t) + [QUOTE] + s, buf, true, true) == Scan(s, buf + t, false, true)
    decreases |t|
  {
    var all := Doubled(t) + [QUOTE] + s;
    if t == [] {
      assert all == [QUOTE] + s && all[1..] == s && buf + t == buf;
    } else {
      var rest := Doubled(t[1..]) + [QUOTE] + s;
      QuotedRun(t[1..], s, buf + [t[0]]);
      assert buf + [t[0]] + t[1..] == buf + t;
      if t[0] == QUOTE {
        assert all == [QUOTE, QUOTE] + rest && all[2..] == rest;
      } else {
        assert all == [t[0]] + rest && all[1..] == rest;
      }
    }
  }

  lemma {:induction false} ElemRun(e: RC.Datum, s: Bytes)
    requires s == [] || s[0] == COMMA
    ensures Scan(EncodeElem(e) + s, [], false, false) == [e] + if s == [] then [] else Scan(s[1..], [], false, false)
  {
    hide Doubled;
    if e.Null? {
      assert EncodeElem(e) + s == s;
    } else if NeedsQuotes(e.text) {
      var all := EncodeElem(e) + s;
      assert all[1..] == Doubled(e.text) + [QUOTE] + s;
      QuotedRun(e.text, s, []);
      assert [] + e.text == e.text;
    } else {
      PlainRun(e.text, s, []);
      assert [] + e.text == e.text;
    }
    if s == [] {
      assert [e] + [] == [e];
    }
  }

  lemma {:induction false} BodyRun(elems: seq<RC.Datum>)
    requires elems != []
    ensures Scan(Body(elems), [], false, false) == elems
    decreases |elems|
  {
    hide Scan, EncodeElem;
    var e := elems[0];
    if |elems| == 1 {
      ElemRun(e, []);
      assert EncodeElem(e) + [] == EncodeElem(e) && elems == [e];
    } else {
      var s := [COMMA] + Body(elems[1..]);
      ElemRun(e, s);
      BodyRun(elems[1..]);
      assert EncodeElem(e) + [COMMA] + Body(elems[1..]) == EncodeElem(e) + s;
      assert s[1..] == Body(elems[1..]) && elems == [e] + elems[1..];
    }
  }

  lemma {:induction false} EmptyBody(elems: seq<RC.Datum>)
    ensures Body(elems) == [] <==> elems == [] || elems == [RC.Null]
  {
    if |elems| == 1 {
      assert elems == [elems[0]];
    }
  }

  /** Reading back what was written gives the same list, for every list but the lone NULL. */
  lemma {:induction false} RecordRoundTrip(elems: seq<RC.Datum>)
    ensures DecodeRecord(EncodeRecord(elems)) == Some(if elems == [RC.Null] then [] else elems)
    ensures DecodeRecord(EncodeRecord(elems)) == Some(elems) <==> elems != [RC.Null]
  {
    hide Scan, Body;
    var s := EncodeRecord(elems);
    assert D.TrimSpace(s) == s;
    assert s[1..|s| - 1] == Body(elems);
    EmptyBody(elems);
    if elems != [] && elems != [RC.Null] {
      BodyRun(elems);
    }
  }

  /** ROW('a', NULL, 'x,"', '') is (a,,"x,""",""). */
  lemma {:induction false} RecordBytes()
    ensures EncodeRecord([RC.Text([97]), RC.Null, RC.Text([120, 44, 34]), RC.Text([])]) ==
      [40, 97, 44, 44, 34, 120, 44, 34, 34, 34, 44, 34, 34, 41]
  {
    hide Body, EncodeElem;
    var a, c, d := RC.Text([97]), RC.Text([120, 44, 34]), RC.Text([]);
    QuotedElem();
    PlainElems();
    BodyOne(d);
    BodyCons(c, [d]);
    assert [c] + [d] == [c, d];
    BodyCons(RC.Null, [c, d]);
    assert [RC.Null] + [c, d] == [RC.Null, c, d];
    BodyCons(a, [RC.Null, c, d]);
    assert [a] + [RC.Null, c, d] == [a, RC.Null, c, d];
  }

  lemma {:induction false} QuotedElem()
    ensures EncodeElem(RC.Text([120, 44, 34])) == [34, 120, 44, 34, 34, 34]
  {
    hide Doubled;
    DoubledCons(34, []);
    DoubledCons(44, [34]);
    DoubledCons(120, [44, 34]);
    assert [34] + [] == [34] && [44] + [34] == [44, 34] && [120] + [44, 34] == [120, 44, 34];
    assert COMMA in [120, 44, 34];
  }

  lemma {:induction false} PlainElems()
    ensures EncodeElem(RC.Text([97])) == [97] && EncodeElem(RC.Null) == [] && EncodeElem(RC.Text([])) == [34, 34]
  {
  }

  lemma {:induction false} BodyOne(e: RC.Datum)
    ensures Body([e]) == EncodeElem(e)
  {
  }

  lemma {:induction false} BodyCons(e: RC.Datum, rest: seq<RC.Datum>)
    requires rest != []
    ensures Body([e] + rest) == EncodeElem(e) + [44] + Body(rest)
  {
    assert ([e] + rest)[1..] == rest;
  }

  lemma {:induction false} DoubledCons(c: byte, rest: Bytes)
    ensures Doubled([c] + rest) == (if c == 34 then [34, 34] else [c]) + Doubled(rest) && Doubled([]) == []
  {
    assert ([c] + rest)[1..] == rest;
  }
}
