/** The PGCOPY binary stream (engine/internal/executor/copy_binary.go): signature, header, rows of
    length-prefixed fields, trailer; for text, numeric, integer, boolean, char and jsonb columns. */
module CopyBinary {
  import opened Bytes
  import opened Numeric
  import opened Decimal
  import RC = RowCodec

  type Row = seq<RC.Datum>

  datatype Column =
    | TextColumn | NumericColumn | Int2Column | Int4Column | Int8Column | BoolColumn | CharColumn | JsonbColumn

  const SIGNATURE: Bytes := [80, 71, 67, 79, 80, 89, 10, 0xFF, 13, 10, 0]

  /** Columns beyond the described ones are text. */
  function ColumnAt(cols: seq<Column>, i: nat): Column {
    if i < |cols| then cols[i] else TextColumn
  }

  // ---- 32-bit integers ----

  function Int32Bytes(v: int): (r: Bytes)
    ensures |r| == 4
  {
    BigEndian(v % 0x1_0000_0000, 4)
  }

  function Int32At(b: Bytes): (r: int)
    requires |b| >= 4
    ensures -0x8000_0000 <= r < 0x8000_0000
  {
    var u := FromBigEndian(b[..4]);
    FromBigEndianBound(b[..4]);
    RC.Pow256Four();
    if u < 0x8000_0000 then u else u - 0x1_0000_0000
  }

  lemma {:induction false} Int32RoundTrip(v: int, rest: Bytes)
    requires -0x8000_0000 <= v < 0x8000_0000
    ensures Int32At(Int32Bytes(v) + rest) == v && (Int32Bytes(v) + rest)[4..] == rest
  {
    hide BigEndian, FromBigEndian;
    RC.Pow256Four();
    BigEndianRoundTrip(v % 0x1_0000_0000, 4);
    assert (Int32Bytes(v) + rest)[..4] == Int32Bytes(v);
  }

  lemma {:induction false} Int16Front(v: int, rest: Bytes)
    requires -32768 <= v < 32768
    ensures Int16At(Int16Bytes(v) + rest, 0) == v && (Int16Bytes(v) + rest)[2..] == rest
  {
    assert Int16Bytes(v) + rest == [] + Int16Bytes(v) + rest;
    Int16RoundTrip(v, [], rest);
  }

  // ---- Field payloads ----

  predicate IsInt(col: Column) {
    col.Int2Column? || col.Int4Column? || col.Int8Column?
  }

  function Width(col: Column): nat
    requires IsInt(col)
  {
    if col.Int2Column? then 2 else if col.Int4Column? then 4 else 8
  }

  /** `ParseInt(text, 10, 64)` with its error dropped: 0 for a syntax error, the nearest int64 out of range. */
  function ParsedInt(text: Bytes): int {
    var digits := Unsigned(text);
    if digits == [] || !AllDigits(digits) then 0
    else
      var n: int := Value(digits);
      var v := if text[0] == MINUS then -n else n;
      if v < -0x8000_0000_0000_0000 then -0x8000_0000_0000_0000
      else if v > 0x7FFF_FFFF_FFFF_FFFF then 0x7FFF_FFFF_FFFF_FFFF else v
  }

  /** The integer that `w` bytes hold, in two's complement. */
  function Signed(u: nat, w: nat): int {
    if 2 * u < Pow256(w) then u else u - Pow256(w)
  }

  predicate IsTrue(text: Bytes) {
    text == [116] || text == [116, 114, 117, 101] || text == [49] || text == [84]
  }

  /** `encodeCopyBinaryField`. */
  function EncodeField(text: Bytes, col: Column): Bytes {
    match col
    case TextColumn => text
    case NumericColumn => if Encode(text).Some? then Encode(text).value else text
    case BoolColumn => if IsTrue(text) then [1] else [0]
    case CharColumn => if text != [] then [text[0]] else [0]
    case JsonbColumn => [1] + text
    case _ => BigEndian(ParsedInt(text) % Pow256(Width(col)), Width(col))
  }

  // ---- Writing ----

  function FieldBytes(d: RC.Datum, col: Column): Bytes {
    if d.Null? then Int32Bytes(-1)
    else
      var payload := EncodeField(d.text, col);
      Int32Bytes(|payload|) + payload
  }

  function FieldsBytes(row: Row, cols: seq<Column>, f: nat): Bytes
    requires f <= |row|
    decreases |row| - f
  {
    if f == |row| then [] else FieldBytes(row[f], ColumnAt(cols, f)) + FieldsBytes(row, cols, f + 1)
  }

  function RowsBytes(rows: seq<Row>, cols: seq<Column>): Bytes {
    if rows == [] then [] else Int16Bytes(|rows[0]|) + FieldsBytes(rows[0], cols, 0) + RowsBytes(rows[1..], cols)
  }

  function Stream(rows: seq<Row>, cols: seq<Column>): Bytes {
    SIGNATURE + Int32Bytes(0) + Int32Bytes(0) + RowsBytes(rows, cols) + Int16Bytes(-1)
  }

  /** `formatCopyBinary`. */
  method FormatCopyBinary(rows: seq<Row>, cols: seq<Column>) returns (b: Bytes)
    ensures b == Stream(rows, cols)
  {
    hide Int16Bytes, Int32Bytes, FieldsBytes;
    b := SIGNATURE + Int32Bytes(0) + Int32Bytes(0);
    ghost var h := b;
    assert rows[0..] == rows;
    for i := 0 to |rows|
      invariant b + RowsBytes(rows[i..], cols) == h + RowsBytes(rows, cols)
    {
      var fields := WriteFields(rows[i], cols);
      ghost var before := b;
      b := b + Int16Bytes(|rows[i]|) + fields;
      RowsBytesStep(rows, cols, i, before, b);
    }
    assert rows[|rows|..] == [] && b + [] == b;
    b := b + Int16Bytes(-1);
  }

  method WriteFields(row: Row, cols: seq<Column>) returns (b: Bytes)
    ensures b == FieldsBytes(row, cols, 0)
  {
    hide FieldsBytes, FieldBytes;
    b := [];
    for f := 0 to |row|
      invariant b + FieldsBytes(row, cols, f) == FieldsBytes(row, cols, 0)
    {
      var field := WriteField(row[f], ColumnAt(cols, f));
      FieldsBytesStep(row, cols, f, b, field);
      b := b + field;
    }
    NoFieldsLeft(row, cols, b);
  }

  lemma {:induction false} FieldsBytesStep(row: Row, cols: seq<Column>, f: nat, before: Bytes, field: Bytes)
    requires f < |row| && field == FieldBytes(row[f], ColumnAt(cols, f))
    ensures before + field + FieldsBytes(row, cols, f + 1) == before + FieldsBytes(row, cols, f)
  {
    hide FieldBytes;
    Associative(before, field, FieldsBytes(row, cols, f + 1));
  }

  lemma {:induction false} NoFieldsLeft(row: Row, cols: seq<Column>, b: Bytes)
    ensures b + FieldsBytes(row, cols, |row|) == b
  {
    hide FieldBytes;
  }

  lemma {:induction false} Associative(x: Bytes, y: Bytes, z: Bytes)
    ensures x + y + z == x + (y + z)
  {
  }

  method WriteField(d: RC.Datum, col: Column) returns (b: Bytes)
    ensures b == FieldBytes(d, col)
  {
    hide Encode, Int32Bytes;
    if d.Null? {
      return Int32Bytes(-1);
    }
    var payload;
    if col.NumericColumn? {
      payload := d.text;
      var n := EncodeNumeric(d.text);
      if n.Some? {
        payload := n.value;
      }
    } else {
      payload := EncodeField(d.text, col);
    }
    b := Int32Bytes(|payload|) + payload;
  }

  lemma {:induction false} RowsBytesStep(rows: seq<Row>, cols: seq<Column>, i: nat, before: Bytes, b: Bytes)
    requires i < |rows| && b == before + Int16Bytes(|rows[i]|) + FieldsBytes(rows[i], cols, 0)
    ensures b + RowsBytes(rows[i + 1..], cols) == before + RowsBytes(rows[i..], cols)
  {
    hide Int16Bytes, FieldsBytes;
    var t := rows[i..];
    assert t[0] == rows[i] && t[1..] == rows[i + 1..];
    var (x, y, z) := (Int16Bytes(|rows[i]|), FieldsBytes(rows[i], cols, 0), RowsBytes(rows[i + 1..], cols));
    assert before + x + y + z == before + (x + y + z);
  }

  // ---- Reading ----

  /** `decodeCopyBinaryField`; None for a payload of the wrong length or an unknown jsonb version. */
  function DecodeField(b: Bytes, col: Column): Option<Bytes> {
    match col
    case TextColumn => Some(b)
    case NumericColumn => Decode(b)
    case BoolColumn => if |b| != 1 then None else Some(if b[0] != 0 then [116] else [102])
    case CharColumn => Some(b)
    case JsonbColumn => if b == [] || b[0] != 1 then None else Some(b[1..])
    case _ => if |b| != Width(col) then None else Some(FormatSigned(Signed(FromBigEndian(b), Width(col))))
  }

  /** One field: the datum and what follows it. */
  function ReadField(b: Bytes, col: Column): (r: Option<(RC.Datum, Bytes)>)
    ensures r.Some? ==> |r.value.1| + 4 <= |b|
  {
    if |b| < 4 then None
    else
      var n := Int32At(b);
      var rest := b[4..];
      if n == -1 then Some((RC.Null, rest))
      else if n < 0 || n > |rest| then None
      else match DecodeField(rest[..n], col)
        case None => None
        case Some(text) => Some((RC.Text(text), rest[n..]))
  }

  function ReadFields(b: Bytes, cols: seq<Column>, f: nat, n: nat): (r: Option<(Row, Bytes)>)
    requires f <= n
    ensures r.Some? ==> |r.value.1| <= |b| && |r.value.0| == n - f
    decreases n - f
  {
    if f == n then Some(([], b))
    else match ReadField(b, ColumnAt(cols, f))
      case None => None
      case Some((d, rest)) => match ReadFields(rest, cols, f + 1, n)
        case None => None
        case Some((ds, end)) => Some(([d] + ds, end))
  }

  function ReadRows(b: Bytes, cols: seq<Column>): Option<seq<Row>>
    decreases |b|
  {
    if |b| < 2 then None
    else
      var n := Int16At(b, 0);
      if n == -1 then Some([])
      else if n < 0 then None
      else match ReadFields(b[2..], cols, 0, n)
        case None => None
        case Some((row, rest)) => match ReadRows(rest, cols)
          case None => None
          case Some(rows) => Some([row] + rows)
  }

  /** What follows the header: its extension is skipped. */
  function Body(data: Bytes): Option<Bytes> {
    if |data| < |SIGNATURE| + 8 || !HasPrefix(data, SIGNATURE) then None
    else
      var ext := Int32At(data[|SIGNATURE| + 4..]);
      var rest := data[|SIGNATURE| + 8..];
      if ext < 0 || ext > |rest| then None else Some(rest[ext..])
  }

  function Parse(data: Bytes, cols: seq<Column>): Option<seq<Row>> {
    match Body(data)
    case None => None
    case Some(b) => ReadRows(b, cols)
  }

  /** The signature, flags and extension; the position after them. */
  method SkipHeader(data: Bytes) returns (r: Option<nat>)
    ensures r.None? <==> Body(data).None?
    ensures r.Some? ==> r.value <= |data| && Body(data) == Some(data[r.value..])
  {
    hide Int32At;
    if |data| < |SIGNATURE| + 8 {
      return None;
    }
    for i := 0 to |SIGNATURE|
      invariant data[..i] == SIGNATURE[..i]
    {
      if data[i] != SIGNATURE[i] {
        assert !HasPrefix(data, SIGNATURE);
        return None;
      }
    }
    var pos := |SIGNATURE| + 4;
    var ext := Int32At(data[pos..]);
    pos := pos + 4;
    if ext < 0 || pos + ext > |data| {
      return None;
    }
    assert data[pos..][ext..] == data[pos + ext..];
    return Some(pos + ext);
  }

  /** The fields of one row, from `start` on. */
  method ParseRow(data: Bytes, cols: seq<Column>, start: nat, n: nat) returns (r: Option<(Row, nat)>)
    requires start <= |data|
    ensures r.None? <==> ReadFields(data[start..], cols, 0, n).None?
    ensures r.Some? ==> start <= r.value.1 <= |data|
    ensures r.Some? ==> ReadFields(data[start..], cols, 0, n) == Some((r.value.0, data[r.value.1..]))
  {
    hide ReadField, ReadFields, ColumnAt;
    var pos, row := start, [];
    ghost var whole := ReadFields(data[start..], cols, 0, n);
    NoFieldsYet(whole);
    for f := 0 to n
      invariant start <= pos <= |data| && |row| == f && whole == Prefixed(row, ReadFields(data[pos..], cols, f, n))
    {
      ReadFieldsStep(data[pos..], cols, f, n);
      var field := ReadField(data[pos..], ColumnAt(cols, f));
      if field.None? {
        return None;
      }
      PrefixedStep(row, field.value.0, ReadFields(field.value.1, cols, f + 1, n));
      FieldRest(data, pos, ColumnAt(cols, f));
      row := row + [field.value.0];
      pos := |data| - |field.value.1|;
    }
    ReadFieldsEnd(data[pos..], cols, n);
    assert row + [] == row;
    return Some((row, pos));
  }

  /** `parseCopyBinary`: one position moves through the data. */
  method ParseCopyBinary(data: Bytes, cols: seq<Column>) returns (r: Option<seq<Row>>)
    ensures r == Parse(data, cols)
  {
    hide Int16At, ReadRows, ReadFields, Body;
    var header := SkipHeader(data);
    if header.None? {
      return None;
    }
    var pos, rows := header.value, [];
    ghost var all := ReadRows(data[pos..], cols);
    NoRowsYet(all);
    while true
      invariant 0 <= pos <= |data| && all == Prepend(rows, ReadRows(data[pos..], cols))
      decreases |data| - pos
    {
      ReadRowsStep(data[pos..], cols);
      if pos + 2 > |data| {
        return None;
      }
      var n := Int16At(data[pos..], 0);
      pos := pos + 2;
      assert data[pos - 2..][2..] == data[pos..];
      if n == -1 {
        assert rows + [] == rows;
        return Some(rows);
      }
      if n < 0 {
        return None;
      }
      var row := ParseRow(data, cols, pos, n);
      if row.None? {
        return None;
      }
      pos := row.value.1;
      PrependStep(rows, row.value.0, ReadRows(data[pos..], cols));
      rows := rows + [row.value.0];
    }
  }

  function Prepend(rows: seq<Row>, r: Option<seq<Row>>): Option<seq<Row>> {
    if r.None? then None else Some(rows + r.value)
  }

  function Prefixed(row: Row, r: Option<(Row, Bytes)>): Option<(Row, Bytes)> {
    if r.None? then None else Some((row + r.value.0, r.value.1))
  }

  lemma {:induction false} NoRowsYet(r: Option<seq<Row>>)
    ensures Prepend([], r) == r
  {
    if r.Some? { assert [] + r.value == r.value; }
  }

  lemma {:induction false} NoFieldsYet(r: Option<(Row, Bytes)>)
    ensures Prefixed([], r) == r
  {
    if r.Some? { assert [] + r.value.0 == r.value.0; }
  }

  lemma {:induction false} PrependStep(rows: seq<Row>, row: Row, r: Option<seq<Row>>)
    ensures Prepend(rows + [row], r) == Prepend(rows, Prepend([row], r))
  {
    if r.Some? { assert rows + [row] + r.value == rows + ([row] + r.value); }
  }

  lemma {:induction false} PrefixedStep(row: Row, d: RC.Datum, r: Option<(Row, Bytes)>)
    ensures Prefixed(row + [d], r) == Prefixed(row, Prefixed([d], r))
  {
    if r.Some? { assert row + [d] + r.value.0 == row + ([d] + r.value.0); }
  }

  lemma {:induction false} ReadRowsStep(b: Bytes, cols: seq<Column>)
    ensures ReadRows(b, cols) ==
      if |b| < 2 then None else if Int16At(b, 0) == -1 then Some([]) else if Int16At(b, 0) < 0 then None
      else match ReadFields(b[2..], cols, 0, Int16At(b, 0))
        case None => None
        case Some((row, rest)) => Prepend([row], ReadRows(rest, cols))
  {
    hide Int16At;
  }

  lemma {:induction false} ReadFieldsStep(b: Bytes, cols: seq<Column>, f: nat, n: nat)
    requires f < n
    ensures ReadFields(b, cols, f, n) == match ReadField(b, ColumnAt(cols, f))
      case None => None
      case Some((d, rest)) => Prefixed([d], ReadFields(rest, cols, f + 1, n))
  {
    hide ReadField;
  }

  lemma {:induction false} ReadFieldsEnd(b: Bytes, cols: seq<Column>, n: nat)
    ensures ReadFields(b, cols, n, n) == Some(([], b))
  {
  }

  lemma {:induction false} FieldRest(data: Bytes, pos: nat, col: Column)
    requires pos <= |data| && ReadField(data[pos..], col).Some?
    ensures var rest := ReadField(data[pos..], col).value.1; rest == data[|data| - |rest|..]
  {
    hide Int32At, Decode;
    var b := data[pos..];
    assert b[4..] == data[pos + 4..];
    var n := Int32At(b);
    if n >= 0 && n <= |b[4..]| {
      assert b[4..][n..] == data[pos + 4 + n..];
    }
  }

  // ---- The round trip ----

  /** What comes back: NULL and text as they were, numbers in canonical form, integers wrapped to their width. */
  function CanonicalText(text: Bytes, col: Column): Bytes {
    match col
    case TextColumn => text
    case NumericColumn =>
      if IsNaN(text) then NAN_TEXT else if IsDecimal(text) then Canonical(PartsOf(text)) else text
    case BoolColumn => if IsTrue(text) then [116] else [102]
    case CharColumn => if text != [] then [text[0]] else [0]
    case JsonbColumn => text
    case _ => FormatSigned(Signed(ParsedInt(text) % Pow256(Width(col)), Width(col)))
  }

  function CanonicalCell(d: RC.Datum, col: Column): RC.Datum {
    if d.Null? then d else RC.Text(CanonicalText(d.text, col))
  }

  /** The cell fits its length prefix, and a numeric cell is a number that fits its header. */
  predicate CellOk(d: RC.Datum, col: Column) {
    d.Text? ==>
      && |EncodeField(d.text, col)| < 0x8000_0000
      && (col.NumericColumn? ==> IsNaN(d.text) || (IsDecimal(d.text) && FitsHeader(Pack(PartsOf(d.text)))))
  }

  predicate RowOk(row: Row, cols: seq<Column>) {
    |row| < 32768 && forall i :: 0 <= i < |row| ==> CellOk(row[i], ColumnAt(cols, i))
  }

  /** The bounds in terms of the texts: under 2 GiB, and a numeric one NaN or a decimal number under 32 KiB. */
  lemma {:induction false} PlainRowOk(row: Row, cols: seq<Column>)
    requires |row| < 32768
    requires forall i :: 0 <= i < |row| && row[i].Text? ==>
      if ColumnAt(cols, i).NumericColumn?
      then IsNaN(row[i].text) || (IsDecimal(row[i].text) && |row[i].text| < 32768)
      else |row[i].text| < 0x7FFF_FFFF
    ensures RowOk(row, cols)
  {
    hide IsNaN, IsDecimal, FitsHeader, Pack, PartsOf, Wire, BigEndian, ParsedInt, Pow256, Header;
    forall i | 0 <= i < |row| ensures CellOk(row[i], ColumnAt(cols, i)) {
      var d, col := row[i], ColumnAt(cols, i);
      if d.Text? && col.NumericColumn? && IsDecimal(d.text) && |d.text| < 32768 { ShortFits(d.text); }
    }
  }

  function CanonicalRow(row: Row, cols: seq<Column>): (r: Row)
    ensures |r| == |row| && forall i :: 0 <= i < |row| ==> r[i] == CanonicalCell(row[i], ColumnAt(cols, i))
  {
    seq(|row|, i requires 0 <= i < |row| => CanonicalCell(row[i], ColumnAt(cols, i)))
  }

  function CanonicalRows(rows: seq<Row>, cols: seq<Column>): (r: seq<Row>)
    ensures |r| == |rows| && forall i :: 0 <= i < |rows| ==> r[i] == CanonicalRow(rows[i], cols)
  {
    seq(|rows|, i requires 0 <= i < |rows| => CanonicalRow(rows[i], cols))
  }

  /** Every int64 is read back from its own text. */
  lemma {:induction false} ParsedFormatted(v: int)
    requires -0x8000_0000_0000_0000 <= v <= 0x7FFF_FFFF_FFFF_FFFF
    ensures ParsedInt(FormatSigned(v)) == v
  {
    hide FormatSigned, Value;
    SignedShape(v);
  }

  /** The numbers an integer column of this width holds. */
  predicate InWidth(v: int, w: nat) {
    0 <= 2 * v + Pow256(w) && 2 * v < Pow256(w)
  }

  /** The range of int2, int4 and int8. */
  predicate InRange(v: int, col: Column)
    requires IsInt(col)
  {
    match col
    case Int2Column => -32768 <= v <= 32767
    case Int4Column => -2147483648 <= v <= 2147483647
    case _ => -9223372036854775808 <= v <= 9223372036854775807
  }

  /** What the bytes of a column can hold is the range of its type. */
  lemma {:induction false} RangeIsWidth(v: int, col: Column)
    requires IsInt(col)
    ensures InWidth(v, Width(col)) <==> InRange(v, col)
  {
    assert Pow256(2) == 0x1_0000 && Pow256(4) == 0x1_0000_0000 && Pow256(8) == 0x1_0000_0000_0000_0000;
  }

  lemma {:induction false} TwosComplement(v: int, w: nat)
    requires InWidth(v, w)
    ensures Signed(v % Pow256(w), w) == v
  {
    hide Pow256;
    var m := Pow256(w);
    if v < 0 { ModNegative(v, m, v / m); }
  }

  lemma {:induction false} ModNegative(v: int, m: int, q: int)
    requires 0 < m && -m <= v < 0 && q == v / m
    ensures v % m == v + m
  {
    assert v == q * m + v % m;
    assert q >= 0 ==> q * m >= 0;
    assert q <= -2 ==> (q + 2) * m <= 0;
  }

  lemma {:induction false} SignedInWidth(u: nat, w: nat)
    requires u < Pow256(w)
    ensures InWidth(Signed(u, w), w)
  {
  }

  /** The text a cell must hold to come back as it was: any text for a text or jsonb column, t or f for a boolean,
      one byte for a char, an integer of the column's range in canonical decimal, NaN or a canonical decimal. */
  ghost predicate Survives(d: RC.Datum, col: Column) {
    d.Text? ==>
      match col
      case TextColumn => true
      case JsonbColumn => true
      case BoolColumn => d.text == [116] || d.text == [102]
      case CharColumn => |d.text| == 1
      case NumericColumn =>
        d.text == NAN_TEXT || (!IsNaN(d.text) && IsDecimal(d.text) && d.text == Canonical(PartsOf(d.text)))
      case _ => exists v :: InRange(v, col) && d.text == FormatSigned(v)
  }

  lemma {:induction false} IntSurvivesIff(text: Bytes, col: Column)
    requires IsInt(col)
    ensures CanonicalText(text, col) == text <==> Survives(RC.Text(text), col)
  {
    hide ParsedInt, FormatSigned, Pow256;
    var w := Width(col);
    var u := ParsedInt(text) % Pow256(w);
    if CanonicalText(text, col) == text {
      SignedInWidth(u, w);
      RangeIsWidth(Signed(u, w), col);
    }
    if v :| InRange(v, col) && text == FormatSigned(v) {
      RangeIsWidth(v, col);
      ParsedFormatted(v);
      TwosComplement(v, w);
    }
  }

  lemma {:induction false} CellSurvivesIff(d: RC.Datum, col: Column)
    requires CellOk(d, col)
    ensures CanonicalCell(d, col) == d <==> Survives(d, col)
  {
    hide ParsedInt, FormatSigned, Pow256, PartsOf, Canonical, Pack, FitsHeader, IsNaN, IsDecimal, Encode, InRange;
    if d.Text? {
      if IsInt(col) {
        IntSurvivesIff(d.text, col);
      } else if col.NumericColumn? {
        NaNIsNaN();
      } else if col.CharColumn? && |d.text| == 1 {
        assert d.text == [d.text[0]];
      }
    }
  }

  /** A stream reads back as exactly the rows it was written from, texts included, if and only if every cell holds
      one of those texts. */
  lemma {:induction false} StreamUnchangedIff(rows: seq<Row>, cols: seq<Column>)
    requires forall i :: 0 <= i < |rows| ==> RowOk(rows[i], cols)
    ensures Parse(Stream(rows, cols), cols) == Some(rows) <==>
      forall i, f :: 0 <= i < |rows| && 0 <= f < |rows[i]| ==> Survives(rows[i][f], ColumnAt(cols, f))
  {
    hide Parse, Stream, CanonicalCell, Survives, CellOk;
    StreamRoundTrip(rows, cols);
    forall i, f | 0 <= i < |rows| && 0 <= f < |rows[i]|
      ensures CanonicalRows(rows, cols)[i][f] == rows[i][f] <==> Survives(rows[i][f], ColumnAt(cols, f))
    {
      assert CanonicalRows(rows, cols)[i] == CanonicalRow(rows[i], cols);
      CellSurvivesIff(rows[i][f], ColumnAt(cols, f));
    }
    if forall i, f :: 0 <= i < |rows| && 0 <= f < |rows[i]| ==> Survives(rows[i][f], ColumnAt(cols, f)) {
      forall i | 0 <= i < |rows| ensures CanonicalRows(rows, cols)[i] == rows[i] {
        assert CanonicalRows(rows, cols)[i] == CanonicalRow(rows[i], cols);
        assert forall f :: 0 <= f < |rows[i]| ==> CanonicalRows(rows, cols)[i][f] == rows[i][f];
      }
      assert CanonicalRows(rows, cols) == rows;
    }
  }

  lemma {:induction false} IntPayload(text: Bytes, col: Column)
    requires IsInt(col)
    ensures FromBigEndian(EncodeField(text, col)) == ParsedInt(text) % Pow256(Width(col))
    ensures |EncodeField(text, col)| == Width(col)
  {
    hide BigEndian, FromBigEndian, ParsedInt, Pow256;
    BigEndianRoundTrip(ParsedInt(text) % Pow256(Width(col)), Width(col));
  }

  lemma {:induction false} FieldValue(d: RC.Datum, col: Column)
    requires d.Text? && CellOk(d, col)
    ensures DecodeField(EncodeField(d.text, col), col) == Some(CanonicalText(d.text, col))
  {
    hide Encode, Decode, PartsOf, Pack, Canonical, FitsHeader, BigEndian, FromBigEndian, ParsedInt, FormatSigned,
      Signed;
    if col.NumericColumn? {
      if IsNaN(d.text) {
        NaNRoundTrip(d.text);
      } else {
        NumericRoundTrip(d.text);
      }
    } else if IsInt(col) {
      IntPayload(d.text, col);
    } else if col.JsonbColumn? {
      assert ([1] + d.text)[1..] == d.text;
    }
  }

  lemma {:induction false} FieldRoundTrip(d: RC.Datum, col: Column, rest: Bytes)
    requires CellOk(d, col)
    ensures ReadField(FieldBytes(d, col) + rest, col) == Some((CanonicalCell(d, col), rest))
  {
    hide Int32At, Int32Bytes, EncodeField, DecodeField, CanonicalText;
    if d.Null? {
      Int32RoundTrip(-1, rest);
    } else {
      var payload := EncodeField(d.text, col);
      Int32RoundTrip(|payload|, payload + rest);
      assert FieldBytes(d, col) + rest == Int32Bytes(|payload|) + (payload + rest);
      assert (payload + rest)[..|payload|] == payload && (payload + rest)[|payload|..] == rest;
      FieldValue(d, col);
    }
  }

  lemma {:induction false} FieldsRoundTrip(row: Row, cols: seq<Column>, f: nat, rest: Bytes)
    requires f <= |row| && RowOk(row, cols)
    ensures ReadFields(FieldsBytes(row, cols, f) + rest, cols, f, |row|) == Some((CanonicalRow(row, cols)[f..], rest))
    decreases |row| - f
  {
    hide ReadField, FieldBytes, CellOk, CanonicalCell;
    if f == |row| {
      assert [] + rest == rest && CanonicalRow(row, cols)[f..] == [];
    } else {
      var (x, y) := (FieldBytes(row[f], ColumnAt(cols, f)), FieldsBytes(row, cols, f + 1));
      assert x + y + rest == x + (y + rest);
      FieldRoundTrip(row[f], ColumnAt(cols, f), y + rest);
      FieldsRoundTrip(row, cols, f + 1, rest);
      assert [CanonicalRow(row, cols)[f]] + CanonicalRow(row, cols)[f + 1..] == CanonicalRow(row, cols)[f..];
    }
  }

  lemma {:induction false} RowsRoundTrip(rows: seq<Row>, cols: seq<Column>)
    requires forall i :: 0 <= i < |rows| ==> RowOk(rows[i], cols)
    ensures ReadRows(RowsBytes(rows, cols) + Int16Bytes(-1), cols) == Some(CanonicalRows(rows, cols))
  {
    hide Int16At, Int16Bytes, ReadFields, FieldsBytes, CanonicalRow, RowOk;
    if rows == [] {
      assert [] + Int16Bytes(-1) == Int16Bytes(-1) + [];
      Int16Front(-1, []);
    } else {
      var row := rows[0];
      RowSize(row, cols);
      var (x, y, z) := (Int16Bytes(|row|), FieldsBytes(row, cols, 0), RowsBytes(rows[1..], cols));
      var rest := z + Int16Bytes(-1);
      assert RowsBytes(rows, cols) + Int16Bytes(-1) == x + (y + rest);
      Int16Front(|row|, y + rest);
      FieldsRoundTrip(row, cols, 0, rest);
      RowsRoundTrip(rows[1..], cols);
      assert CanonicalRow(row, cols)[0..] == CanonicalRow(row, cols);
      assert [CanonicalRow(row, cols)] + CanonicalRows(rows[1..], cols) == CanonicalRows(rows, cols);
    }
  }

  lemma {:induction false} RowSize(row: Row, cols: seq<Column>)
    requires RowOk(row, cols)
    ensures |row| < 32768
  {
  }

  /** A whole stream reads back as the rows it was written from, numbers in canonical form. */
  lemma {:induction false} StreamRoundTrip(rows: seq<Row>, cols: seq<Column>)
    requires forall i :: 0 <= i < |rows| ==> RowOk(rows[i], cols)
    ensures Parse(Stream(rows, cols), cols) == Some(CanonicalRows(rows, cols))
  {
    hide Int32At, Int32Bytes, Int16Bytes, RowsBytes, ReadRows, RowOk;
    var body := RowsBytes(rows, cols) + Int16Bytes(-1);
    var (s, z) := (SIGNATURE, Int32Bytes(0));
    var data := Stream(rows, cols);
    assert data == s + z + z + body;
    assert data[|s| + 4..] == z + body && data[|s| + 8..] == body && HasPrefix(data, s);
    Int32RoundTrip(0, body);
    assert body[0..] == body;
    RowsRoundTrip(rows, cols);
  }

  /** Exactly the numeric cells that survive unchanged: NaN and the canonical decimal texts. No other text
      does, whatever its length. */
  lemma {:induction false} NumericUnchangedIff(text: Bytes)
    requires IsDecimal(text) && !IsNaN(text) ==> FitsHeader(Pack(PartsOf(text)))
    ensures DecodeField(EncodeField(text, NumericColumn), NumericColumn) == Some(text) <==>
      text == NAN_TEXT || (!IsNaN(text) && IsDecimal(text) && text == Canonical(PartsOf(text)))
  {
    hide PartsOf, Pack, Canonical, Decode, Wire, FitsHeader;
    NoFallbackRoundTrip(text);
    if IsNaN(text) {
      NaNRoundTrip(text);
    } else {
      NaNIsNaN();
      if IsDecimal(text) {
        NumericRoundTrip(text);
      }
    }
  }

  lemma {:induction false} NaNIsNaN()
    ensures IsNaN(NAN_TEXT)
  {
    assert TrimSpace(NAN_TEXT) == NAN_TEXT;
  }

  /** The eight bytes 'infinity' are no decimal number: written as they are, they are read as a header. */
  lemma {:induction false} InfinityIsUnreadable()
    ensures var text := [105, 110, 102, 105, 110, 105, 116, 121];
      DecodeField(EncodeField(text, NumericColumn), NumericColumn).None?
  {
    hide EncodeField, DecodeField;
    ReadAsHeader([105, 110, 102, 105, 110, 105, 116, 121]);
  }

  lemma {:induction false} ReadAsHeader(text: Bytes)
    requires |text| == 8 && text[0] == 105 && text[4] == 110 && !IsSpace(text[7])
    ensures DecodeField(EncodeField(text, NumericColumn), NumericColumn).None?
  {
    hide Encode, IsNaN, IsDecimal, Sum, DigitsAt, FloatString, IsZeroDecimal;
    LetterFirst(text);
  }

  /** A text that starts with a letter other than n is neither a decimal number nor NaN. */
  lemma {:induction false} LetterFirst(text: Bytes)
    requires text != [] && !IsSpace(text[0]) && !IsSpace(text[|text| - 1]) && 97 <= text[0] <= 122 && text[0] != 110
    ensures !IsDecimal(text) && !IsNaN(text) && Encode(text).None?
  {
    hide TrimSpace, PartsOf, Pack, Wire, Header, AllDigits, Lower;
    NoSpaceAtEnds(text);
    FirstLower(text);
    FirstPart(text);
    NotDigits(PartsOf(text).whole);
  }

  lemma {:induction false} FirstLower(text: Bytes)
    requires text != [] && 97 <= text[0] <= 122
    ensures Lower(text) != [] && Lower(text)[0] == text[0]
  {
  }

  lemma {:induction false} FirstPart(text: Bytes)
    requires text != [] && 97 <= text[0] <= 122 && TrimSpace(text) == text
    ensures PartsOf(text).whole != [] && PartsOf(text).whole[0] == text[0]
  {
    hide TrimSpace, IndexOf;
    assert IndexOf(text, DOT) != 0;
  }

  lemma {:induction false} NotDigits(s: Bytes)
    requires s != [] && 97 <= s[0]
    ensures !AllDigits(s)
  {
  }

  /** The stream of one int4 cell -7, byte by byte. */
  lemma {:induction false} StreamBytes()
    ensures Stream([[RC.Text([45, 55])]], [Int4Column]) ==
      [80, 71, 67, 79, 80, 89, 10, 255, 13, 10, 0] + [0, 0, 0, 0] + [0, 0, 0, 0]
      + [0, 1] + [0, 0, 0, 4] + [255, 255, 255, 249] + [255, 255]
  {
    hide Int32Bytes, EncodeField;
    assert Int32Bytes(0) == [0, 0, 0, 0] by { Int32Small(0); }
    assert Int32Bytes(4) == [0, 0, 0, 4] by { Int32Small(4); }
    MinusSeven();
    var row := [RC.Text([45, 55])];
    assert [row][1..] == [];
    assert FieldsBytes(row, [Int4Column], 1) == [];
  }

  lemma {:induction false} Int32Small(n: nat)
    requires n < 256
    ensures Int32Bytes(n) == [0, 0, 0, n]
  {
    hide BigEndian;
    SmallBigEndian(n);
  }

  lemma {:induction false} MinusSeven()
    ensures EncodeField([45, 55], Int4Column) == [255, 255, 255, 249]
  {
    assert [45, 55][1..] == [55] && [55][..0] == [];
    assert ParsedInt([45, 55]) == -7;
    assert Pow256(4) == 0x1_0000_0000 by { RC.Pow256Four(); }
    HighBytes(0xFFFF_FFF9);
  }

  lemma {:induction false} HighBytes(n: nat)
    requires n == 0xFFFF_FFF9
    ensures BigEndian(n, 4) == [255, 255, 255, 249]
  {
    assert n / 256 == 0xFF_FFFF && n % 256 == 249;
    assert BigEndian(0xFF, 1) == [255];
    assert BigEndian(0xFFFF, 2) == [255, 255];
    assert BigEndian(0xFF_FFFF, 3) == [255, 255, 255];
  }
}
