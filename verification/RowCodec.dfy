/** Stored row values (engine/internal/executor/encode.go, engine/internal/storage/valuetag.go). */
module RowCodec {
  import opened Bytes

  datatype Datum = Null | Text(text: Bytes)

  const ROW_TAG_LIVE: byte := 1
  const ROW_TAG_TOMBSTONE: byte := 0

  predicate IsTombstone(raw: Bytes) {
    |raw| >= 1 && raw[0] == ROW_TAG_TOMBSTONE
  }

  function EncodeCell(c: Datum): Bytes {
    match c
    case Null => [1] + BigEndian(0, 4)
    case Text(t) => [0] + BigEndian(|t| % 0x1_0000_0000, 4) + t
  }

  function EncodeCells(cells: seq<Datum>): Bytes
    decreases |cells|
  {
    if cells == [] then [] else EncodeCell(cells[0]) + EncodeCells(cells[1..])
  }

  function EncodeRow(cells: seq<Datum>): Bytes {
    [ROW_TAG_LIVE] + EncodeCells(cells)
  }

  /** One cell and what follows it; a truncated header or value is an error. */
  function DecodeCell(b: Bytes): (r: Option<(Datum, Bytes)>)
    ensures r.Some? ==> |r.value.1| < |b|
  {
    if |b| < 5 then None
    else
      var l := FromBigEndian(b[1..5]);
      if 5 + l > |b| then None
      else Some((if b[0] == 1 then Null else Text(b[5..5 + l]), b[5 + l..]))
  }

  /** `n` cells; columns added after the row was written read as NULL. */
  function DecodeCells(b: Bytes, n: nat): (r: Option<seq<Datum>>)
    ensures r.Some? ==> |r.value| == n
    decreases n
  {
    if n == 0 then Some([])
    else if b == [] then
      match DecodeCells([], n - 1) { case None => None case Some(t) => Some([Null] + t) }
    else match DecodeCell(b)
      case None => None
      case Some(h) => match DecodeCells(h.1, n - 1) { case None => None case Some(t) => Some([h.0] + t) }
  }

  function DecodeRow(raw: Bytes, n: nat): (r: Option<seq<Datum>>)
    ensures r.Some? ==> |r.value| == n
  {
    if |raw| < 1 || IsTombstone(raw) then None else DecodeCells(raw[1..], n)
  }

  ghost predicate Sized(cells: seq<Datum>) {
    forall c :: c in cells && c.Text? ==> |c.text| < 0x1_0000_0000
  }

  lemma {:induction false} CellRoundTrip(c: Datum, tail: Bytes)
    requires c.Text? ==> |c.text| < 0x1_0000_0000
    ensures DecodeCell(EncodeCell(c) + tail) == Some((c, tail))
  {
    hide BigEndian, FromBigEndian;
    var b := EncodeCell(c) + tail;
    var l := if c.Text? then |c.text| else 0;
    Pow256Four();
    BigEndianRoundTrip(l, 4);
    assert b[1..5] == BigEndian(l, 4);
    assert b[5 + l..] == tail;
    assert c.Text? ==> b[5..5 + l] == c.text;
  }

  lemma {:induction false} Pow256Four()
    ensures Pow256(4) == 0x1_0000_0000
  {
    assert Pow256(2) == 0x1_0000;
  }

  lemma {:induction false} CellsRoundTrip(cells: seq<Datum>)
    requires Sized(cells)
    ensures DecodeCells(EncodeCells(cells), |cells|) == Some(cells)
    decreases |cells|
  {
    hide EncodeCell, DecodeCell;
    if cells == [] {
      assert EncodeCells(cells) == [];
    } else {
      assert Sized(cells[1..]) && cells[0] in cells;
      CellRoundTrip(cells[0], EncodeCells(cells[1..]));
      CellsRoundTrip(cells[1..]);
      assert cells == [cells[0]] + cells[1..];
    }
  }

  /** A stored row reads back as the cells that were written, and is not a tombstone. */
  lemma {:induction false} RowRoundTrip(cells: seq<Datum>)
    requires Sized(cells)
    ensures DecodeRow(EncodeRow(cells), |cells|) == Some(cells)
    ensures !IsTombstone(EncodeRow(cells))
  {
    CellsRoundTrip(cells);
    assert EncodeRow(cells)[1..] == EncodeCells(cells);
  }

  function Nulls(k: nat): (r: seq<Datum>)
    ensures |r| == k && forall i :: 0 <= i < k ==> r[i] == Null
  {
    seq(k, _ => Null)
  }

  lemma {:induction false} NothingLeft(k: nat)
    ensures DecodeCells([], k) == Some(Nulls(k))
  {
    if k > 0 {
      NothingLeft(k - 1);
      assert [Null] + Nulls(k - 1) == Nulls(k);
    }
  }

  lemma {:induction false} CellsThenNulls(cells: seq<Datum>, k: nat)
    requires Sized(cells)
    ensures DecodeCells(EncodeCells(cells), |cells| + k) == Some(cells + Nulls(k))
    decreases |cells|
  {
    hide EncodeCell, DecodeCell;
    if cells == [] {
      NothingLeft(k);
      assert [] + Nulls(k) == Nulls(k);
    } else {
      assert Sized(cells[1..]) && cells[0] in cells;
      CellRoundTrip(cells[0], EncodeCells(cells[1..]));
      CellsThenNulls(cells[1..], k);
      assert [cells[0]] + (cells[1..] + Nulls(k)) == cells + Nulls(k);
      assert EncodeCells(cells) != [] by { CellRoundTrip(cells[0], EncodeCells(cells[1..])); }
    }
  }

  /** Columns added to the table after the row was written read as NULL. */
  lemma {:induction false} AddedColumnsAreNull(cells: seq<Datum>, k: nat)
    requires Sized(cells)
    ensures DecodeRow(EncodeRow(cells), |cells| + k) == Some(cells + Nulls(k))
  {
    CellsThenNulls(cells, k);
    assert EncodeRow(cells)[1..] == EncodeCells(cells);
  }

  /** A cell cut short anywhere is an error. */
  lemma {:induction false} CutCellIsError(c: Datum, k: nat)
    requires (c.Text? ==> |c.text| < 0x1_0000_0000) && k < |EncodeCell(c)|
    ensures DecodeCell(EncodeCell(c)[..k]) == None
  {
    hide BigEndian, FromBigEndian;
    var b := EncodeCell(c);
    var l := if c.Text? then |c.text| else 0;
    Pow256Four();
    BigEndianRoundTrip(l, 4);
    if k >= 5 { assert b[..k][1..5] == BigEndian(l, 4); }
  }

  /** The stored bytes of the row (NULL, 'a'). */
  lemma {:induction false} StoredBytes()
    ensures EncodeRow([Null, Text([97])]) == [1, 1, 0, 0, 0, 0, 0, 0, 0, 0, 1, 97]
    ensures DecodeRow([0], 2) == None && DecodeRow([], 2) == None
  {
    hide BigEndian, FromBigEndian;
    SmallBigEndian(0);
    SmallBigEndian(1);
    assert [Null, Text([97])][1..] == [Text([97])] && [Text([97])][1..] == [];
  }
}
