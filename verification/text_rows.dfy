/** Rows of the text protocol, as they come from the server. */
module TextRows {
  import opened Bytes
  import opened Results
  import opened Packets
  import Compression
  import Lenenc
  import R = Reader
  import Rows

  /** A column is null, or text. */
  type Column = Option<seq<byte>>

  /** How the server writes a column. */
  function ColumnBytes(c: Column): seq<byte> {
    if c.None? then Lenenc.Written(None) else Lenenc.Written(Some(|c.value|)) + c.value
  }

  function RowBytes(row: seq<Column>): seq<byte> {
    if row == [] then [] else ColumnBytes(row[0]) + RowBytes(row[1..])
  }

  predicate Sized(row: seq<Column>) {
    forall c :: c in row && c.Some? ==> |c.value| < 0x1_0000_0000_0000_0000
  }

  const MAX_SAFE_INTEGER: nat := 0x1F_FFFF_FFFF_FFFF

  predicate TooLongIn(row: seq<Column>) {
    exists c :: c in row && c.Some? && |c.value| > MAX_SAFE_INTEGER
  }

  /** What is kept of a column: nothing of one over the limit. */
  function Kept(c: Column, maxColumnLen: nat): Column {
    if c.Some? && |c.value| > maxColumnLen then None else c
  }

  /** One column: its length, or the null mark, and its text. */
  method ReadColumn(r: R.Reader, maxColumnLen: nat, ghost c: Column, ghost rest: seq<byte>)
    returns (res: Result<Column>)
    requires r.Valid() && Rows.Begins(r, ColumnBytes(c), rest)
    requires c.Some? ==> |c.value| < 0x1_0000_0000_0000_0000
    modifies r, r.buffer
    ensures res.Err? <==> c.Some? && |c.value| > MAX_SAFE_INTEGER
    ensures res.Ok? ==> r.Valid() && Rows.Passed(r, rest) && res.value == Kept(c, maxColumnLen)
    ensures res.Err? ==> res == Err(TooLong)
  {
    hide Look, Lenenc.Written, Lenenc.Decode, Compression.Front;
    ghost var size, text := if c.None? then None else Some(|c.value|), if c.None? then [] else c.value;
    Lenenc.NullRoundTrip(size);
    ConcatAssoc(Lenenc.Written(size), text, rest);
    assert Lenenc.Written(size) + [] == Lenenc.Written(size);
    Rows.Front(Lenenc.Written(size), text + rest);
    Rows.Front(text, rest);
    assert r.Ahead().payload[0] == Lenenc.Written(size)[0];
    var length := r.ReadLenencInt();
    var len := length.value;
    if len > MAX_SAFE_INTEGER {
      return Err(TooLong);
    }
    if len == Lenenc.NULL {
      assert [] + rest == rest;
      return Ok(None);
    }
    if len > maxColumnLen {
      var _ := r.ReadVoid(len);
      return Ok(None);
    }
    if len <= r.buffer.Length - HEADER {
      var short := r.ReadShortBytes(len);
      return Ok(Some(short.value));
    }
    var dest := new byte[len];
    var _ := r.ReadBytesToBuffer(dest);
    res := Ok(Some(dest[..]));
  }

  /** A row comes back whole: each null, and each text, whatever packets and chunks it comes in. */
  method DeserializeRowText(r: R.Reader, nColumns: nat, maxColumnLen: nat, ghost row: seq<Column>,
    ghost rest: seq<byte>) returns (res: Result<seq<Column>>)
    requires r.Valid() && |row| == nColumns && Sized(row) && Rows.Begins(r, RowBytes(row), rest)
    modifies r, r.buffer
    ensures res.Err? <==> TooLongIn(row)
    ensures res.Ok? ==> r.Valid() && Rows.Passed(r, rest)
    ensures res.Ok? ==>
      |res.value| == nColumns && forall i :: 0 <= i < nColumns ==> res.value[i] == Kept(row[i], maxColumnLen)
    ensures res.Err? ==> res == Err(TooLong)
  {
    hide Look, Lenenc.Written, Compression.Front, ColumnBytes, Kept;
    var values := [];
    assert row[0..] == row;
    for i := 0 to nColumns
      invariant r.Valid() && Rows.Begins(r, RowBytes(row[i..]), rest) && Rows.Passed(r, r.Ahead().payload)
      invariant |values| == i && forall k :: 0 <= k < i ==> values[k] == Kept(row[k], maxColumnLen)
      invariant forall k :: 0 <= k < i && row[k].Some? ==> |row[k].value| <= MAX_SAFE_INTEGER
    {
      assert row[i..][0] == row[i] && row[i..][1..] == row[i + 1..];
      ConcatAssoc(ColumnBytes(row[i]), RowBytes(row[i + 1..]), rest);
      var value :- ReadColumn(r, maxColumnLen, row[i], RowBytes(row[i + 1..]) + rest);
      values := values + [value];
    }
    assert [] + rest == rest;
    return Ok(values);
  }
}
