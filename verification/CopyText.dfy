/** The COPY text format with a one-byte delimiter, the tab unless another is named
    (engine/internal/executor/copy.go). */
module CopyText {
  import opened Bytes
  import RC = RowCodec

  type Row = seq<RC.Datum>

  const TAB: byte := 9
  const LF: byte := 10
  const CR: byte := 13
  const BACKSLASH: byte := 92
  const NULL_FIELD: Bytes := [BACKSLASH, 78]
  const END_MARK: Bytes := [BACKSLASH, 46]

  /** One byte as `escapeCopyText` writes it. */
  function EscapeByte(c: byte): Bytes {
    if c == BACKSLASH then [BACKSLASH, BACKSLASH]
    else if c == TAB then [BACKSLASH, 116]
    else if c == LF then [BACKSLASH, 110]
    else if c == CR then [BACKSLASH, 114]
    else [c]
  }

  function Escape(s: Bytes): Bytes {
    if s == [] then [] else EscapeByte(s[0]) + Escape(s[1..])
  }

  /** The byte a backslash pair stands for. */
  function Escaped(c: byte): Option<byte> {
    if c == 116 then Some(TAB) else if c == 110 then Some(LF) else if c == 114 then Some(CR)
    else if c == BACKSLASH then Some(BACKSLASH) else None
  }

  /** `unescapeCopyText`: known pairs are replaced left to right, everything else is copied. */
  function Unescape(s: Bytes): Bytes
    decreases |s|
  {
    if s == [] then []
    else if s[0] == BACKSLASH && |s| > 1 && Escaped(s[1]).Some? then [Escaped(s[1]).value] + Unescape(s[2..])
    else [s[0]] + Unescape(s[1..])
  }

  /** A pair that means nothing is two bytes like any others, and so is a backslash at the end. */
  lemma {:induction false} UnknownPairs(c: byte, s: Bytes)
    requires c != 116 && c != 110 && c != 114 && c != BACKSLASH
    ensures Unescape([BACKSLASH, c] + s) == [BACKSLASH, c] + Unescape(s) && Unescape([BACKSLASH]) == [BACKSLASH]
  {
    var b := [BACKSLASH, c] + s;
    assert b[1..] == [c] + s && ([c] + s)[1..] == s && [BACKSLASH][1..] == [];
    assert [BACKSLASH] + ([c] + Unescape(s)) == [BACKSLASH, c] + Unescape(s);
  }

  function Field(d: RC.Datum): Bytes {
    if d.Null? then NULL_FIELD else Escape(d.text)
  }

  function Line(row: Row, delim: byte): Bytes
    decreases |row|
  {
    if row == [] then []
    else if |row| == 1 then Field(row[0])
    else Field(row[0]) + [delim] + Line(row[1..], delim)
  }

  function Format(rows: seq<Row>, delim: byte): Bytes {
    if rows == [] then [] else Line(rows[0], delim) + [LF] + Format(rows[1..], delim)
  }

  /** `formatCopyText`. */
  method FormatCopyText(rows: seq<Row>, delim: byte) returns (b: Bytes)
    ensures b == Format(rows, delim)
  {
    hide Line;
    b := [];
    for i := 0 to |rows|
      invariant b + Format(rows[i..], delim) == Format(rows, delim)
    {
      var line := WriteLine(rows[i], delim);
      assert rows[i..][0] == rows[i] && rows[i..][1..] == rows[i + 1..];
      assert b + (line + [LF] + Format(rows[i + 1..], delim)) == b + line + [LF] + Format(rows[i + 1..], delim);
      b := b + line + [LF];
    }
    assert rows[|rows|..] == [] && b + [] == b;
  }

  method WriteLine(row: Row, delim: byte) returns (b: Bytes)
    ensures b == Line(row, delim)
  {
    hide Field;
    b := [];
    for k := 0 to |row|
      invariant b == Line(row[..k], delim)
    {
      LineSnoc(row, delim, k);
      if k > 0 {
        b := b + [delim];
      }
      b := b + Field(row[k]);
    }
    assert row[..|row|] == row;
  }

  lemma {:induction false} LineSnoc(row: Row, delim: byte, i: nat)
    requires i < |row|
    ensures Line(row[..i + 1], delim) == Line(row[..i], delim) + (if i > 0 then [delim] else []) + Field(row[i])
    decreases i
  {
    hide Field;
    var s := row[..i + 1];
    if i == 0 {
      assert s == [row[0]] && row[..0] == [];
    } else {
      LineSnoc(row[1..], delim, i - 1);
      assert s[1..] == row[1..][..i] && row[..i][1..] == row[1..][..i - 1] && row[1..][i - 1] == row[i];
      var (x, y, z) := (Field(row[0]), Line(row[1..][..i - 1], delim), Field(row[i]));
      assert Line(s, delim) == x + [delim] + Line(row[1..][..i], delim);
      if i == 1 {
        assert row[..1] == [row[0]] && row[1..][..0] == [];
      } else {
        assert x + [delim] + (y + [delim] + z) == x + [delim] + y + [delim] + z;
      }
    }
  }

  /** `strings.Split` on one byte. */
  function Split(s: Bytes, c: byte): (r: seq<Bytes>)
    ensures r != []
  {
    if s == [] then [[]]
    else if s[0] == c then [[]] + Split(s[1..], c)
    else
      var rest := Split(s[1..], c);
      [[s[0]] + rest[0]] + rest[1..]
  }

  function ParseField(f: Bytes): RC.Datum {
    if f == NULL_FIELD then RC.Null else RC.Text(Unescape(f))
  }

  function ParseLine(line: Bytes, delim: byte): (r: Row)
    ensures |r| == |Split(line, delim)|
    ensures forall i :: 0 <= i < |r| ==> r[i] == ParseField(Split(line, delim)[i])
  {
    var fields := Split(line, delim);
    seq(|fields|, i requires 0 <= i < |fields| => ParseField(fields[i]))
  }

  /** Empty lines are skipped; the end mark stops. */
  function ParseLines(lines: seq<Bytes>, delim: byte): seq<Row> {
    if lines == [] || lines[0] == END_MARK then []
    else if lines[0] == [] then ParseLines(lines[1..], delim)
    else [ParseLine(lines[0], delim)] + ParseLines(lines[1..], delim)
  }

  function Parse(data: Bytes, delim: byte): seq<Row> {
    ParseLines(Split(data, LF), delim)
  }

  /** `parseCopyText`. */
  method ParseCopyText(data: Bytes, delim: byte) returns (rows: seq<Row>)
    ensures rows == Parse(data, delim)
  {
    hide Split, ParseField;
    var lines := Split(data, LF);
    rows := [];
    assert lines[0..] == lines;
    for i := 0 to |lines|
      invariant rows + ParseLines(lines[i..], delim) == ParseLines(lines, delim)
    {
      var line := lines[i];
      assert lines[i..][0] == line && lines[i..][1..] == lines[i + 1..];
      if line == [] {
        continue;
      }
      if line == END_MARK {
        assert rows + [] == rows;
        return;
      }
      var fields := Split(line, delim);
      var row: Row := [];
      for k := 0 to |fields|
        invariant |row| == k && forall j :: 0 <= j < k ==> row[j] == ParseField(fields[j])
      {
        row := row + [ParseField(fields[k])];
      }
      assert row == ParseLine(line, delim);
      assert rows + ([row] + ParseLines(lines[i + 1..], delim)) == rows + [row] + ParseLines(lines[i + 1..], delim);
      rows := rows + [row];
    }
    assert lines[|lines|..] == [] && rows + [] == rows;
  }

  // ---- The round trip ----

  lemma {:induction false} UnescapeEscape(s: Bytes)
    ensures Unescape(Escape(s)) == s
  {
    if s != [] {
      UnescapeEscape(s[1..]);
      var (x, r) := (EscapeByte(s[0]), Escape(s[1..]));
      assert s == [s[0]] + s[1..];
      assert x + r == Escape(s);
      if |x| == 2 {
        assert (x + r)[0] == BACKSLASH && (x + r)[1] == x[1] && (x + r)[2..] == r;
      } else {
        assert (x + r)[0] == s[0] && (x + r)[1..] == r;
      }
    }
  }

  /** Escaped texts hold no delimiter, and look neither like NULL nor like the end mark. */
  lemma {:induction false} EscapeIsPlain(s: Bytes)
    ensures TAB !in Escape(s) && LF !in Escape(s) && Escape(s) != NULL_FIELD && Escape(s) != END_MARK
    ensures Escape(s) == [] <==> s == []
  {
    if s != [] {
      EscapeIsPlain(s[1..]);
      var (x, r) := (EscapeByte(s[0]), Escape(s[1..]));
      assert Escape(s) == x + r;
      assert x[0] == BACKSLASH ==> |x| == 2 && x[1] != 78 && x[1] != 46;
      assert (x + r)[0] == x[0] && (|x| == 2 ==> (x + r)[1] == x[1]);
    }
  }

  lemma {:induction false} FieldRoundTrip(d: RC.Datum)
    ensures ParseField(Field(d)) == d && TAB !in Field(d) && LF !in Field(d)
    ensures Field(d) == [] <==> d == RC.Text([])
  {
    hide Escape, Unescape;
    if d.Text? {
      UnescapeEscape(d.text);
      EscapeIsPlain(d.text);
    }
  }

  lemma {:induction false} SplitFirst(p: Bytes, c: byte, s: Bytes)
    requires c !in p
    ensures Split(p + [c] + s, c) == [p] + Split(s, c)
    decreases |p|
  {
    var all := p + [c] + s;
    if p == [] {
      assert all == [c] + s && all[1..] == s;
    } else {
      SplitFirst(p[1..], c, s);
      assert all[0] == p[0] && all[1..] == p[1..] + [c] + s;
      assert [p[0]] + p[1..] == p;
      assert ([p[1..]] + Split(s, c))[1..] == Split(s, c);
    }
  }

  lemma {:induction false} SplitNone(p: Bytes, c: byte)
    requires c !in p
    ensures Split(p, c) == [p]
  {
    if p != [] {
      SplitNone(p[1..], c);
      assert [p[0]] + p[1..] == p;
    }
  }

  /** How often a byte occurs. */
  function Occurs(s: Bytes, c: byte): nat {
    if s == [] then 0 else (if s[0] == c then 1 else 0) + Occurs(s[1..], c)
  }

  lemma {:induction false} OccursAppend(a: Bytes, b: Bytes, c: byte)
    ensures Occurs(a + b, c) == Occurs(a, c) + Occurs(b, c)
    decreases |a|
  {
    if a == [] {
      assert a + b == b;
    } else {
      OccursAppend(a[1..], b, c);
      assert (a + b)[1..] == a[1..] + b;
    }
  }

  lemma {:induction false} OccursNot(a: Bytes, c: byte)
    ensures Occurs(a, c) == 0 <==> c !in a
  {
    if a != [] {
      OccursNot(a[1..], c);
      assert a == [a[0]] + a[1..];
    }
  }

  lemma {:induction false} SplitCounts(s: Bytes, c: byte)
    ensures |Split(s, c)| == 1 + Occurs(s, c)
  {
    if s != [] { SplitCounts(s[1..], c); }
  }

  /** No written field holds the delimiter, which is not escaped. */
  predicate Delimitable(row: Row, delim: byte) {
    forall i :: 0 <= i < |row| ==> delim !in Field(row[i])
  }

  lemma {:induction false} LineCounts(row: Row, delim: byte)
    requires row != []
    ensures Occurs(Line(row, delim), delim) >= |row| - 1
    ensures Occurs(Line(row, delim), delim) == |row| - 1 <==> Delimitable(row, delim)
    decreases |row|
  {
    hide Field;
    OccursNot(Field(row[0]), delim);
    if |row| > 1 {
      LineCounts(row[1..], delim);
      var rest := Line(row[1..], delim);
      OccursAppend(Field(row[0]) + [delim], rest, delim);
      OccursAppend(Field(row[0]), [delim], delim);
      assert Occurs([delim], delim) == 1;
      forall i | 0 < i < |row| ensures row[i] == row[1..][i - 1] {}
    }
  }

  lemma {:induction false} LineParses(row: Row, delim: byte)
    requires row != [] && Delimitable(row, delim)
    ensures ParseLine(Line(row, delim), delim) == row
    decreases |row|
  {
    hide Field, ParseField, Split, ParseLine;
    FieldRoundTrip(row[0]);
    if |row| == 1 {
      LoneField(Field(row[0]), delim);
      assert row == [row[0]];
    } else {
      forall i | 0 < i < |row| ensures row[i] == row[1..][i - 1] {}
      LineParses(row[1..], delim);
      assert row == [row[0]] + row[1..];
      ParseLineStep(Field(row[0]), delim, Line(row[1..], delim));
    }
  }

  /** A row comes back from its line if and only if no field holds the delimiter. */
  lemma {:induction false} LineParsesIff(row: Row, delim: byte)
    requires row != []
    ensures ParseLine(Line(row, delim), delim) == row <==> Delimitable(row, delim)
  {
    hide Field, ParseField, Split, Delimitable, Line;
    LineCounts(row, delim);
    SplitCounts(Line(row, delim), delim);
    if Delimitable(row, delim) { LineParses(row, delim); }
  }

  lemma {:induction false} LoneField(f: Bytes, delim: byte)
    requires delim !in f
    ensures ParseLine(f, delim) == [ParseField(f)]
  {
    hide ParseField, Split;
    SplitNone(f, delim);
  }

  lemma {:induction false} ParseLineStep(f: Bytes, delim: byte, rest: Bytes)
    requires delim !in f
    ensures ParseLine(f + [delim] + rest, delim) == [ParseField(f)] + ParseLine(rest, delim)
  {
    hide ParseField, Split;
    SplitFirst(f, delim, rest);
  }

  lemma {:induction false} LineIsOneLine(row: Row, delim: byte)
    requires delim != LF
    ensures LF !in Line(row, delim)
    decreases |row|
  {
    hide Field;
    if row != [] {
      FieldRoundTrip(row[0]);
      LineIsOneLine(row[1..], delim);
    }
  }

  /** A row that is written as an empty line: no columns, or one empty text. */
  predicate Vanishes(row: Row) {
    row == [] || row == [RC.Text([])]
  }

  lemma {:induction false} EmptyLine(row: Row, delim: byte)
    ensures Line(row, delim) == [] <==> Vanishes(row)
  {
    hide Field;
    if row != [] {
      FieldRoundTrip(row[0]);
      if |row| == 1 { assert row == [row[0]]; }
    }
  }

  /** With the tab no field holds the delimiter and no line looks like the end mark. */
  lemma {:induction false} TabIsSafe(row: Row)
    ensures Delimitable(row, TAB) && Line(row, TAB) != END_MARK
  {
    hide Field;
    forall i | 0 <= i < |row| ensures TAB !in Field(row[i]) { FieldRoundTrip(row[i]); }
    if row != [] {
      FieldNotMark(row[0]);
      if |row| > 1 { assert Line(row, TAB)[|Field(row[0])|] == TAB; }
    }
  }

  lemma {:induction false} FieldNotMark(d: RC.Datum)
    ensures Field(d) != END_MARK
  {
    hide Escape;
    if d.Text? {
      EscapeIsPlain(d.text);
    }
  }

  /** What comes back: nothing for an empty line, nothing from an end mark on. */
  function ReadBack(rows: seq<Row>, delim: byte): seq<Row> {
    if rows == [] || Line(rows[0], delim) == END_MARK then []
    else if Vanishes(rows[0]) then ReadBack(rows[1..], delim)
    else [ParseLine(Line(rows[0], delim), delim)] + ReadBack(rows[1..], delim)
  }

  lemma {:induction false} ParseFormat(rows: seq<Row>, delim: byte)
    requires delim != LF
    ensures Parse(Format(rows, delim), delim) == ReadBack(rows, delim)
  {
    hide Line, Split, ParseLine, Vanishes;
    if rows == [] {
      EmptyData(delim);
    } else {
      ParseFormat(rows[1..], delim);
      EmptyLine(rows[0], delim);
      LineIsOneLine(rows[0], delim);
      SplitFirst(Line(rows[0], delim), LF, Format(rows[1..], delim));
      var ls := Split(Format(rows[1..], delim), LF);
      assert ([Line(rows[0], delim)] + ls)[1..] == ls;
    }
  }

  lemma {:induction false} EmptyData(delim: byte)
    ensures Parse([], delim) == []
  {
    var lines := Split([], LF);
    assert |lines| == 1 && lines[0] == [] && lines[1..] == [];
    assert ParseLines(lines, delim) == ParseLines(lines[1..], delim);
  }

  /** The row has a line of its own that is no end mark, and no field of it holds the delimiter. */
  predicate Readable(row: Row, delim: byte) {
    !Vanishes(row) && Line(row, delim) != END_MARK && Delimitable(row, delim)
  }

  lemma {:induction false} ReadBackIff(rows: seq<Row>, delim: byte)
    ensures |ReadBack(rows, delim)| <= |rows|
    ensures ReadBack(rows, delim) == rows <==> forall i :: 0 <= i < |rows| ==> Readable(rows[i], delim)
  {
    hide Delimitable, Line, ParseLine;
    if rows != [] {
      ReadBackIff(rows[1..], delim);
      var r, rest := rows[0], ReadBack(rows[1..], delim);
      assert rows == [r] + rows[1..];
      forall i | 0 < i < |rows| ensures rows[i] == rows[1..][i - 1] {}
      if r != [] { LineParsesIff(r, delim); }
      if Line(r, delim) != END_MARK && !Vanishes(r) {
        var p := ParseLine(Line(r, delim), delim);
        assert [p] + rest == [r] + rows[1..] <==> p == r && rest == rows[1..] by {
          assert ([p] + rest)[0] == p && ([r] + rows[1..])[0] == r;
          assert ([p] + rest)[1..] == rest && ([r] + rows[1..])[1..] == rows[1..];
        }
      }
    }
  }

  /** With any delimiter but the newline: reading back what was written gives the same rows exactly when
      none of them is written as an empty line or as the end mark and no field holds the delimiter, which
      is not escaped. NULL, the empty text and the text \N stay apart. */
  lemma {:induction false} CopyTextRoundTrip(rows: seq<Row>, delim: byte)
    requires delim != LF
    ensures Parse(Format(rows, delim), delim) == rows <==> forall i :: 0 <= i < |rows| ==> Readable(rows[i], delim)
  {
    hide Format, Parse, Readable, ReadBack;
    ParseFormat(rows, delim);
    ReadBackIff(rows, delim);
  }

  /** With the tab, exactly when none is written as an empty line. */
  lemma {:induction false} TabRoundTrip(rows: seq<Row>)
    ensures Parse(Format(rows, TAB), TAB) == rows <==> forall i :: 0 <= i < |rows| ==> !Vanishes(rows[i])
  {
    hide Format, Parse, Vanishes, Line, Delimitable;
    CopyTextRoundTrip(rows, TAB);
    forall i | 0 <= i < |rows| ensures Readable(rows[i], TAB) <==> !Vanishes(rows[i]) { TabIsSafe(rows[i]); }
  }

  /** In particular every list of rows with two or more columns round trips. */
  lemma {:induction false} WideRowsRoundTrip(rows: seq<Row>)
    requires forall i :: 0 <= i < |rows| ==> |rows[i]| >= 2
    ensures Parse(Format(rows, TAB), TAB) == rows
  {
    hide Format, Parse;
    TabRoundTrip(rows);
  }

  /** With a comma the text 'a,b' comes back as two columns. */
  lemma {:induction false} CommaSplitsText()
    ensures Parse(Format([[RC.Text([97, 44, 98])]], 44), 44) == [[RC.Text([97]), RC.Text([98])]]
  {
    hide Format, Parse, Line, Split, ParseLine, Escape, Unescape;
    var rows := [[RC.Text([97, 44, 98])]];
    ParseFormat(rows, 44);
    CommaLine();
    CommaFields();
    assert rows[1..] == [];
  }

  lemma {:induction false} CommaLine()
    ensures Line([RC.Text([97, 44, 98])], 44) == [97, 44, 98]
  {
    assert Escape([97, 44, 98]) == [97, 44, 98] by {
      assert [97, 44, 98][1..] == [44, 98] && [44, 98][1..] == [98] && [98][1..] == [];
    }
  }

  lemma {:induction false} CommaFields()
    ensures ParseLine([97, 44, 98], 44) == [RC.Text([97]), RC.Text([98])]
  {
    SplitCons(98, [], 44);
    SplitCons(44, [98], 44);
    SplitCons(97, [44, 98], 44);
    assert Unescape([97]) == [97] && Unescape([98]) == [98];
  }

  lemma {:induction false} SplitCons(c: byte, rest: Bytes, delim: byte)
    ensures var r := Split(rest, delim);
      Split([c] + rest, delim) == if c == delim then [[]] + r else [[c] + r[0]] + r[1..]
  {
    assert ([c] + rest)[1..] == rest;
  }

  /** The line of (NULL, 'a<tab>b', '<backslash>', '<newline><return>'): \N, \t, \\, \n and \r. */
  lemma {:induction false} LineBytes()
    ensures Format([[RC.Null, RC.Text([97, 9, 98]), RC.Text([92]), RC.Text([10, 13])]], TAB) ==
      [92, 78, 9, 97, 92, 116, 98, 9, 92, 92, 9, 92, 110, 92, 114, 10]
  {
    hide Line, Escape;
    var (b, c, d) := (RC.Text([97, 9, 98]), RC.Text([92]), RC.Text([10, 13]));
    EscapedTexts();
    LineOne(d);
    LineCons(c, [d]);
    assert [c] + [d] == [c, d];
    LineCons(b, [c, d]);
    assert [b] + [c, d] == [b, c, d];
    LineCons(RC.Null, [b, c, d]);
    assert [RC.Null] + [b, c, d] == [RC.Null, b, c, d];
    assert [[RC.Null, b, c, d]][1..] == [];
  }

  lemma {:induction false} EscapedTexts()
    ensures Escape([97, 9, 98]) == [97, 92, 116, 98] && Escape([92]) == [92, 92]
    ensures Escape([10, 13]) == [92, 110, 92, 114]
  {
    hide Escape;
    EscapeCons(98, []);
    EscapeCons(9, [98]);
    EscapeCons(97, [9, 98]);
    EscapeCons(92, []);
    EscapeCons(13, []);
    EscapeCons(10, [13]);
    assert [98] + [] == [98] && [9] + [98] == [9, 98] && [97] + [9, 98] == [97, 9, 98] && [92] + [] == [92];
    assert [13] + [] == [13] && [10] + [13] == [10, 13];
  }

  lemma {:induction false} LineOne(d: RC.Datum)
    ensures Line([d], TAB) == Field(d)
  {
  }

  lemma {:induction false} LineCons(d: RC.Datum, rest: Row)
    requires rest != []
    ensures Line([d] + rest, TAB) == Field(d) + [9] + Line(rest, TAB)
  {
    assert ([d] + rest)[1..] == rest;
  }

  lemma {:induction false} EscapeCons(c: byte, rest: Bytes)
    ensures Escape([c] + rest) == EscapeByte(c) + Escape(rest) && Escape([]) == []
  {
    assert ([c] + rest)[1..] == rest;
  }
}
