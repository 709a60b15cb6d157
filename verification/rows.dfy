/** Rows in the binary protocol: written to a file by one half of a connection, and read back by the other. */
module Rows {
  import opened Bytes
  import opened Results
  import opened Packets
  import opened Bits
  import Compression
  import Lenenc
  import R = Reader
  import W = Writer
  import Wire

  /** Column types: integers of `k` bytes (a year is a 2-byte integer), floating point numbers as their `k` bytes,
      and `Bytes` for all the types that are stored as length-encoded bytes. */
  datatype Column = Int(k: nat, unsigned: bool) | Float(k: nat) | DateTime | Time | Bit | Bytes

  datatype Value =
    | Null
    | Integer(n: int)
    | Raw(bits: seq<byte>)
    | Date(year: nat, month: nat, day: nat, hour: nat, minute: nat, second: nat, micro: nat)
    | Duration(micros: int)
    | Bool(b: bool)
    | Blob(bytes: seq<byte>)

  predicate Fits(c: Column, v: Value) {
    match c
    case Int(k, unsigned) =>
      && k in {1, 2, 4, 8}
      && (v.Null? || (v.Integer?
           && if unsigned then 0 <= v.n < Pow256(k) else 0 <= 2 * v.n + Pow256(k) < 2 * Pow256(k)))
    case Float(k) => k in {4, 8} && (v.Null? || (v.Raw? && |v.bits| == k))
    case DateTime =>
      || v.Null?
      || (v.Date? && v.year < 0x1_0000 && v.month < 0x100 && v.day < 0x100 && v.hour < 0x100 && v.minute < 0x100
           && v.second < 0x100
          && v.micro < 0x1_0000_0000)
    case Time => v.Null? || (v.Duration? && Abs(v.micros) / 86_400_000_000 < 0x1_0000_0000)
    case Bit => v.Null? || v.Bool?
    case Bytes => v.Null? || (v.Blob? && |v.bytes| < 0x1_0000_0000_0000_0000)
  }

  predicate AllFit(cs: seq<Column>, row: seq<Value>) {
    |cs| == |row| && forall i :: 0 <= i < |row| ==> Fits(cs[i], row[i])
  }

  function Abs(n: int): nat {
    if n < 0 then -n else n
  }

  // ----- The bytes -----

  function DateLen(v: Value): nat
    requires v.Date?
  {
    if v.micro != 0 then 11
    else if v.hour + v.minute + v.second != 0 then 7
    else if v.year + v.month + v.day != 0 then 4
    else 0
  }

  function DateBytes(v: Value): seq<byte>
    requires v.Date?
  {
    var len := DateLen(v);
    LE(len, 1)
    + (if len >= 4 then LE(v.year, 2) + (LE(v.month, 1) + LE(v.day, 1)) else [])
    + (if len >= 7 then LE(v.hour, 1) + (LE(v.minute, 1) + LE(v.second, 1)) else [])
    + (if len >= 11 then LE(v.micro, 4) else [])
  }

  function TimeBytes(micros: int): seq<byte> {
    if micros == 0 then LE(0, 1)
    else
      var micro, seconds := Abs(micros) % 1_000_000, Abs(micros) / 1_000_000;
      LE(if micro != 0 then 12 else 8, 1)
      + (LE(if micros < 0 then 1 else 0, 1) + (LE(seconds / 86_400, 4)
      + (LE(seconds / 3600 % 24, 1) + (LE(seconds / 60 % 60, 1) + (LE(seconds % 60, 1)
      + (if micro != 0 then LE(micro, 4) else []))))))
  }

  function ValueBytes(c: Column, v: Value): seq<byte>
    requires Fits(c, v)
  {
    if v.Null? then []
    else match c
      case Int(k, _) => LE(v.n % Pow256(k), k)
      case Float(_) => v.bits
      case DateTime => DateBytes(v)
      case Time => TimeBytes(v.micros)
      case Bit => LE(if v.b then 0x0101 else 0x0001, 2)
      case Bytes => Lenenc.Encode(|v.bytes|) + v.bytes
  }

  function Flags(row: seq<Value>): (flags: seq<bool>)
    ensures |flags| == |row| + 2
  {
    [false, false] + seq(|row|, i requires 0 <= i < |row| => row[i].Null?)
  }

  function Values(cs: seq<Column>, row: seq<Value>): seq<byte>
    requires AllFit(cs, row)
    decreases |row|
  {
    if row == [] then [] else ValueBytes(cs[0], row[0]) + Values(cs[1..], row[1..])
  }

  /** The null bitmap begins at the bit 2. */
  function RowBytes(cs: seq<Column>, row: seq<Value>): seq<byte>
    requires AllFit(cs, row)
  {
    Bitmap(Flags(row)) + Values(cs, row)
  }

  // ----- Writing -----

  /** The null mask, from the bit 2. */
  method SerializeMask(w: W.Writer, row: seq<Value>)
    requires w.Open() && w.bufferEnd + |Bitmap(Flags(row))| <= w.buffer.Length
    modifies w`bufferEnd, w.buffer
    ensures w.Open() && w.Current() == old(w.Current()) + Bitmap(Flags(row)) && w.Committed() == old(w.Committed())
    ensures w.bufferEnd == old(w.bufferEnd) + |Bitmap(Flags(row))|
  {
    hide Compression.Unpack, Compression.Lawful, Compression.Increasing, Bitmap, Or, Filling, Frames, Fits;
    ghost var flags, base := Flags(row), w.Current();
    assert forall i :: 0 <= i < |row| ==> flags[i + 2] == row[i].Null?;
    var nullMask: nat, nullBit: nat := 0, 4; // starts from bit offset 2
    ghost var full := 0;
    MaskBegins(row);
    assert base + [] == base;
    for i := 0 to |row|
      invariant w.Open() && full <= i + 2 && Filling(flags, i + 2, full, nullMask, nullBit)
      invariant w.Current() == base + Bitmap(flags[..full]) && w.Committed() == old(w.Committed())
      invariant w.bufferEnd == old(w.bufferEnd) + |Bitmap(flags[..full])|
    {
      FillingGoes(flags, i + 2, full, nullMask, nullBit);
      if row[i].Null? {
        nullMask := Or(nullMask, nullBit);
      }
      if nullBit == 0x80 {
        MaskLonger(flags, full, i + 3);
        PutMask(w, nullMask, base, Bitmap(flags[..full]));
        nullMask, nullBit, full := 0, 1, i + 3;
      } else {
        nullBit := nullBit * 2;
      }
    }
    FillingEnds(flags, full, nullMask, nullBit);
    if nullBit != 1 {
      PutMask(w, nullMask, base, Bitmap(flags[..full]));
    } else {
      assert Bitmap(flags[..full]) + [] == Bitmap(flags[..full]);
    }
  }

  method PutMask(w: W.Writer, mask: byte, ghost base: seq<byte>, ghost before: seq<byte>)
    requires w.Open() && w.bufferEnd < w.buffer.Length && w.Current() == base + before
    modifies w`bufferEnd, w.buffer
    ensures w.Open() && w.Current() == base + (before + [mask]) && w.Committed() == old(w.Committed())
    ensures w.bufferEnd == old(w.bufferEnd) + 1
  {
    hide Compression.Unpack, Compression.Lawful, Compression.Increasing, Frames;
    w.WriteBytes([mask]);
    ConcatAssoc(base, before, [mask]);
  }

  method SerializeValues(w: W.Writer, cs: seq<Column>, row: seq<Value>)
    requires w.Open() && AllFit(cs, row) && w.bufferEnd + |Values(cs, row)| <= w.buffer.Length
    modifies w`bufferEnd, w.buffer
    ensures w.Open() && w.Current() == old(w.Current()) + Values(cs, row) && w.Committed() == old(w.Committed())
    ensures w.bufferEnd == old(w.bufferEnd) + |Values(cs, row)|
  {
    hide Compression.Unpack, Compression.Lawful, ValueBytes, Values, Fits, Frames;
    ghost var head := w.Current();
    assert cs[0..] == cs && row[0..] == row && head + [] == head;
    ghost var written: seq<byte> := [];
    for i := 0 to |row|
      invariant w.Open() && AllFit(cs[i..], row[i..]) && written + Values(cs[i..], row[i..]) == Values(cs, row)
      invariant w.Current() == head + written && w.Committed() == old(w.Committed())
      invariant w.bufferEnd == old(w.bufferEnd) + |written|
    {
      ValuesGo(cs, row, i);
      ghost var bytes := ValueBytes(cs[i], row[i]);
      ConcatAssoc(written, bytes, Values(cs[i + 1..], row[i + 1..]));
      ConcatAssoc(head, written, bytes);
      w.WriteBytes(ValueBytes(cs[i], row[i]));
      written := written + bytes;
    }
    ValuesEnd(cs, row);
  }

  /** The row goes to the packet; it must fit the buffer. */
  method SerializeRow(w: W.Writer, cs: seq<Column>, row: seq<Value>)
    requires w.Open() && AllFit(cs, row) && w.bufferEnd + |RowBytes(cs, row)| <= w.buffer.Length
    modifies w`bufferEnd, w.buffer
    ensures w.Open() && w.Current() == old(w.Current()) + RowBytes(cs, row) && w.Committed() == old(w.Committed())
    ensures w.bufferEnd == old(w.bufferEnd) + |RowBytes(cs, row)|
  {
    hide Compression.Unpack, Compression.Lawful, Bitmap, Values, Fits, AllFit, Frames;
    ConcatAssoc(w.Current(), Bitmap(Flags(row)), Values(cs, row));
    SerializeMask(w, row);
    SerializeValues(w, cs, row);
  }

  /**
   Any row: it goes to the packet. If its last column has bytes that do not fit, the packet is sent with them behind it.
   A packet that fills half of the buffer is sent too, and in both cases another one begins.
   */
  method SerializeRowBinary(w: W.Writer, cs: seq<Column>, row: seq<Value>)
    requires w.Open() && AllFit(cs, row) && w.bufferEnd + |RowHead(cs, row)| <= w.buffer.Length
    modifies w, w.buffer
    ensures w.Open()
    ensures var end := old(w.bufferEnd) + |RowBytes(cs, row)|;
      if end <= w.buffer.Length && 2 * (end - HEADER) < w.buffer.Length then
        w.Current() == old(w.Current()) + RowBytes(cs, row) && w.Committed() == old(w.Committed())
      else
        w.Current() == [] && w.Committed() == old(w.FinishedWith(RowBytes(cs, row)))
  {
    hide Compression.Unpack, Compression.Lawful, Compression.Increasing, Frames, W.EndAfter;
    hide Bitmap, Values, ValueBytes, Fits, AllFit, RowBytes, RowHead, LastBytes;
    RowParts(cs, row);
    var bytes := LastBytes(row);
    var data := new byte[|bytes|](i requires 0 <= i < |bytes| => bytes[i]);
    assert data[..] == bytes;
    ghost var base, head := w.Current(), RowHead(cs, row);
    ConcatAssoc(base, head, bytes);
    assert base + (head + bytes) + [] == base + (head + bytes);
    SerializeHead(w, cs, row);
    KeepOrSend(w, data);
    SendHalfFull(w);
  }

  /** The data goes to the packet if it fits; otherwise the packet is sent with it, and another one begins. */
  method KeepOrSend(w: W.Writer, data: array<byte>)
    requires w.Open() && data != w.buffer
    modifies w, w.buffer
    ensures w.Open() && data[..] == old(data[..])
    ensures if old(w.bufferEnd) + data.Length <= w.buffer.Length then
        && w.Current() == old(w.Current()) + data[..] && w.Committed() == old(w.Committed())
        && w.bufferEnd == old(w.bufferEnd) + data.Length && w.sequenceId == old(w.sequenceId)
      else
        w.Current() == [] && w.Committed() == old(w.FinishedWith(data[..])) && w.bufferEnd == HEADER
  {
    hide Compression.Unpack, Compression.Lawful, Compression.Increasing, Frames, W.EndAfter;
    if w.bufferEnd + data.Length <= w.buffer.Length {
      w.WriteBytes(data[..]);
    } else {
      SendNow(w, data);
      w.StartWritingNewPacket(false);
    }
  }

  method SendNow(w: W.Writer, data: array<byte>)
    requires w.Open() && data != w.buffer
    modifies w, w.buffer
    ensures w.Valid() && w.bufferStart == w.bufferEnd == 0 && w.sent == old(w.FinishedWith(data[..]))
  {
    hide Compression.Unpack, Compression.Lawful, Compression.Increasing, Frames, W.EndAfter;
    assert data[0..0 + data.Length] == data[..];
    var _ := w.SendBytes(data, 0, data.Length, false);
  }

  /** A packet that fills half of the buffer is sent, and another one begins. */
  method SendHalfFull(w: W.Writer)
    requires w.Open()
    modifies w, w.buffer
    ensures w.Open()
    ensures if 2 * (old(w.bufferEnd) - HEADER) < w.buffer.Length then
        w.Current() == old(w.Current()) && w.Committed() == old(w.Committed())
      else
        w.Current() == [] && w.Committed() == old(w.FinishedWith([]))
  {
    hide Compression.Unpack, Compression.Lawful, Frames;
    if 2 * (w.bufferEnd - HEADER) >= w.buffer.Length {
      w.Send();
      w.StartWritingNewPacket(false);
    }
  }

  /** The bytes of the last column, if it has any. */
  function LastBytes(row: seq<Value>): seq<byte> {
    if row != [] && row[|row| - 1].Blob? then row[|row| - 1].bytes else []
  }

  /** All of the row but the bytes of the last column. */
  function RowHead(cs: seq<Column>, row: seq<Value>): seq<byte>
    requires AllFit(cs, row)
  {
    if row != [] && row[|row| - 1].Blob? then
      var last := |row| - 1;
      AllFitInit(cs, row, last);
      Bitmap(Flags(row)) + Values(cs[..last], row[..last]) + Lenenc.Encode(|row[last].bytes|)
    else
      RowBytes(cs, row)
  }

  method SerializeHead(w: W.Writer, cs: seq<Column>, row: seq<Value>)
    requires AllFit(cs, row) && w.Open() && w.bufferEnd + |RowHead(cs, row)| <= w.buffer.Length
    modifies w`bufferEnd, w.buffer
    ensures w.Open() && w.Current() == old(w.Current()) + RowHead(cs, row) && w.Committed() == old(w.Committed())
    ensures w.bufferEnd == old(w.bufferEnd) + |RowHead(cs, row)|
  {
    hide Compression.Unpack, Compression.Lawful, Bitmap, Values, Fits, AllFit, Frames, Lenenc.Encode;
    if row == [] || !row[|row| - 1].Blob? {
      SerializeRow(w, cs, row);
      return;
    }
    SameColumns(cs, row);
    var last := |row| - 1;
    AllFitInit(cs, row, last);
    ghost var a, b, c := Bitmap(Flags(row)), Values(cs[..last], row[..last]), Lenenc.Encode(|row[last].bytes|);
    ConcatAssoc(w.Current(), a, b);
    ConcatAssoc(w.Current(), a + b, c);
    SerializeMask(w, row);
    SerializeValues(w, cs[..last], row[..last]);
    w.WriteBytes(Lenenc.Encode(|row[last].bytes|));
  }

  lemma {:induction false} AllFitInit(cs: seq<Column>, row: seq<Value>, k: nat)
    requires AllFit(cs, row) && k <= |row|
    ensures AllFit(cs[..k], row[..k]) && AllFit(cs[k..], row[k..])
    ensures Values(cs, row) == Values(cs[..k], row[..k]) + Values(cs[k..], row[k..])
    decreases k
  {
    hide Fits, ValueBytes;
    if k == 0 {
      assert cs[0..] == cs && row[0..] == row;
    } else {
      AllFitInit(cs[1..], row[1..], k - 1);
      assert cs[..k][1..] == cs[1..][..k - 1] && row[..k][1..] == row[1..][..k - 1];
      assert cs[k..] == cs[1..][k - 1..] && row[k..] == row[1..][k - 1..];
      ConcatAssoc(ValueBytes(cs[0], row[0]), Values(cs[1..][..k - 1], row[1..][..k - 1]), Values(cs[k..], row[k..]));
    }
  }

  lemma RowParts(cs: seq<Column>, row: seq<Value>)
    requires AllFit(cs, row)
    ensures RowBytes(cs, row) == RowHead(cs, row) + LastBytes(row)
  {
    if row != [] && row[|row| - 1].Blob? {
      var last := |row| - 1;
      AllFitInit(cs, row, last);
      assert Fits(cs[last], row[last]);
      var bytes, n := row[last].bytes, Lenenc.Encode(|row[last].bytes|);
      hide Lenenc.Encode, Bitmap;
      var a, b := Bitmap(Flags(row)), Values(cs[..last], row[..last]);
      assert cs[last..][1..] == [] && n + bytes + [] == n + bytes;
      assert Values(cs[last..], row[last..]) == n + bytes;
      ConcatAssoc(b, n, bytes);
      ConcatAssoc(a, b + n, bytes);
      ConcatAssoc(a, b, n);
    } else {
      assert RowBytes(cs, row) + [] == RowBytes(cs, row);
    }
  }

  lemma MaskBegins(row: seq<Value>)
    ensures Filling(Flags(row), 2, 0, 0, 4) && Bitmap(Flags(row)[..0]) == []
  {
    var open := Flags(row)[0..2];
    assert open == [false, false] && open[1..] == [false] && open[1..][1..] == [];
    Pow2Values();
  }

  lemma MaskLonger(flags: seq<bool>, a: nat, b: nat)
    requires a <= b <= |flags|
    ensures |Bitmap(flags[..a])| <= |Bitmap(flags[..b])| <= |Bitmap(flags)|
  {
  }

  lemma ValuesGo(cs: seq<Column>, row: seq<Value>, i: nat)
    requires AllFit(cs, row) && i < |row|
    ensures AllFit(cs[i..], row[i..]) && AllFit(cs[i + 1..], row[i + 1..]) && Fits(cs[i], row[i])
    ensures Values(cs[i..], row[i..]) == ValueBytes(cs[i], row[i]) + Values(cs[i + 1..], row[i + 1..])
  {
    hide Fits, ValueBytes;
    assert row[i..][1..] == row[i + 1..] && cs[i..][1..] == cs[i + 1..];
  }

  lemma ValuesEnd(cs: seq<Column>, row: seq<Value>)
    requires AllFit(cs, row)
    ensures AllFit(cs[|row|..], row[|row|..]) && Values(cs[|row|..], row[|row|..]) == []
    ensures forall written: seq<byte> :: written + [] == written
  {
  }

  // ----- Reading -----

  /** The payload before the reader begins with these bytes. */
  ghost predicate Begins(r: R.Reader, bytes: seq<byte>, rest: seq<byte>)
    requires r.Valid()
    reads r, r.buffer
  {
    r.Ahead().whole && r.Ahead().payload == bytes + rest
  }

  /** The reader stands after them, and the stream beyond the payload is the same. */
  twostate predicate Passed(r: R.Reader, rest: seq<byte>)
    requires old(r.Valid()) && r.Valid()
    reads r, r.buffer
  {
    r.Ahead() == old(r.Ahead()).(payload := rest)
  }

  lemma Front(a: seq<byte>, b: seq<byte>)
    ensures (a + b)[..|a|] == a && (a + b)[|a|..] == b
  {
  }

  method ReadKnown(r: R.Reader, k: nat, ghost n: nat, ghost rest: seq<byte>) returns (value: nat)
    requires r.Valid() && 1 <= k <= 8 && n < Pow256(k) && Begins(r, LE(n, k), rest)
    modifies r, r.buffer
    ensures r.Valid() && Passed(r, rest) && value == n
  {
    hide Look, LE, FromLE, Compression.Front;
    Front(LE(n, k), rest);
    LERoundTrip(n, k);
    var res := r.ReadUint(k);
    value := res.value;
  }

  /** Three bytes in a row. */
  method ReadThree(r: R.Reader, ghost a: nat, ghost b: nat, ghost c: nat, ghost rest: seq<byte>)
    returns (x: nat, y: nat, z: nat)
    requires r.Valid() && a < 0x100 && b < 0x100 && c < 0x100 && Begins(r, LE(a, 1) + (LE(b, 1) + LE(c, 1)), rest)
    modifies r, r.buffer
    ensures r.Valid() && Passed(r, rest) && x == a && y == b && z == c
  {
    hide Look, LE, Compression.Front;
    Pow256Values();
    ConcatAssoc(LE(a, 1), LE(b, 1) + LE(c, 1), rest);
    ConcatAssoc(LE(b, 1), LE(c, 1), rest);
    x := ReadKnown(r, 1, a, LE(b, 1) + (LE(c, 1) + rest));
    assert LE(a, 1) + (LE(b, 1) + LE(c, 1) + rest) == LE(a, 1) + (LE(b, 1) + (LE(c, 1) + rest));
    y := ReadKnown(r, 1, b, LE(c, 1) + rest);
    z := ReadKnown(r, 1, c, rest);
  }

  method ReadKnownLenenc(r: R.Reader, ghost n: nat, ghost rest: seq<byte>) returns (value: int)
    requires r.Valid() && n < 0x1_0000_0000_0000_0000 && Begins(r, Lenenc.Encode(n), rest)
    modifies r, r.buffer
    ensures r.Valid() && Passed(r, rest) && value == n
  {
    hide Look, Lenenc.Encode, Lenenc.Decode, Compression.Front;
    Front(Lenenc.Encode(n), rest);
    Lenenc.RoundTrip(n);
    assert r.Ahead().payload[0] == Lenenc.Encode(n)[0];
    var res := r.ReadLenencInt();
    value := res.value;
  }

  method ReadDate(r: R.Reader, ghost v: Value, ghost rest: seq<byte>) returns (value: Value)
    requires r.Valid() && v.Date? && Fits(DateTime, v) && Begins(r, DateBytes(v), rest)
    modifies r, r.buffer
    ensures r.Valid() && Passed(r, rest) && value == v
  {
    hide Look, LE, Compression.Front, DateBytes;
    Pow256Values();
    ghost var len0 := DateLen(v);
    ghost var ymd := if len0 >= 4 then LE(v.year, 2) + (LE(v.month, 1) + LE(v.day, 1)) else [];
    ghost var hms := if len0 >= 7 then LE(v.hour, 1) + (LE(v.minute, 1) + LE(v.second, 1)) else [];
    ghost var us := if len0 >= 11 then LE(v.micro, 4) else [];
    assert DateBytes(v) + rest == LE(len0, 1) + (ymd + (hms + (us + rest))) by {
      DateLayout(v, rest);
    }
    var len := ReadKnown(r, 1, len0, ymd + (hms + (us + rest)));
    var year, month, day, hour, minute, second, micro := 0, 0, 0, 0, 0, 0, 0;
    if len >= 4 {
      Regroup3(LE(v.year, 2), LE(v.month, 1), LE(v.day, 1), hms + (us + rest));
      year := ReadKnown(r, 2, v.year, LE(v.month, 1) + (LE(v.day, 1) + (hms + (us + rest))));
      month := ReadKnown(r, 1, v.month, LE(v.day, 1) + (hms + (us + rest)));
      day := ReadKnown(r, 1, v.day, hms + (us + rest));
      if len >= 7 {
        hour, minute, second := ReadThree(r, v.hour, v.minute, v.second, us + rest);
        if len >= 11 {
          micro := ReadKnown(r, 4, v.micro, rest);
        }
      }
    }
    assert len < 4 ==> ymd + (hms + (us + rest)) == rest;
    assert len < 7 ==> hms + (us + rest) == rest;
    assert len < 11 ==> us + rest == rest;
    return Date(year, month, day, hour, minute, second, micro);
  }

  lemma DateLayout(v: Value, rest: seq<byte>)
    requires v.Date?
    ensures var len := DateLen(v);
      DateBytes(v) + rest == LE(len, 1)
        + ((if len >= 4 then LE(v.year, 2) + (LE(v.month, 1) + LE(v.day, 1)) else [])
        + ((if len >= 7 then LE(v.hour, 1) + (LE(v.minute, 1) + LE(v.second, 1)) else [])
        + ((if len >= 11 then LE(v.micro, 4) else []) + rest)))
  {
    hide LE, DateLen;
    var len := DateLen(v);
    Regroup(LE(len, 1), if len >= 4 then LE(v.year, 2) + (LE(v.month, 1) + LE(v.day, 1)) else [],
      if len >= 7 then LE(v.hour, 1) + (LE(v.minute, 1) + LE(v.second, 1)) else [],
      if len >= 11 then LE(v.micro, 4) else [], rest);
  }

  lemma Regroup(a: seq<byte>, b: seq<byte>, c: seq<byte>, d: seq<byte>, e: seq<byte>)
    ensures a + b + c + d + e == a + (b + (c + (d + e)))
  {
  }

  lemma Regroup3(a: seq<byte>, b: seq<byte>, c: seq<byte>, d: seq<byte>)
    ensures a + (b + c) + d == a + (b + (c + d))
  {
  }

  method ReadTime(r: R.Reader, ghost micros: int, ghost rest: seq<byte>) returns (value: int)
    requires r.Valid() && Abs(micros) / 86_400_000_000 < 0x1_0000_0000 && Begins(r, TimeBytes(micros), rest)
    modifies r, r.buffer
    ensures r.Valid() && Passed(r, rest) && value == micros
  {
    hide Look, LE, Compression.Front, TimeBytes, Clock;
    Pow256Values();
    TimeLayout(micros, rest);
    var len := ReadKnown(r, 1, TimeLen(micros), if micros == 0 then rest else Clock(micros, rest));
    if len < 8 {
      return 0;
    }
    value := ReadClock(r, len, micros, rest);
  }

  function TimeLen(micros: int): nat {
    if micros == 0 then 0 else if Abs(micros) % 1_000_000 != 0 then 12 else 8
  }

  /** The bytes of a time after its length, and what follows them, grouped as they are read. */
  function Clock(micros: int, rest: seq<byte>): seq<byte> {
    var micro, s := Abs(micros) % 1_000_000, Abs(micros) / 1_000_000;
    LE(if micros < 0 then 1 else 0, 1) + (LE(s / 86_400, 4) +
      ((LE(s / 3600 % 24, 1) + (LE(s / 60 % 60, 1) + LE(s % 60, 1))) + ((if micro != 0 then LE(micro, 4) else [])
        + rest)))
  }

  lemma TimeLayout(micros: int, rest: seq<byte>)
    ensures TimeBytes(micros) + rest == LE(TimeLen(micros), 1) + (if micros == 0 then rest else Clock(micros, rest))
  {
    hide LE;
    var micro, s := Abs(micros) % 1_000_000, Abs(micros) / 1_000_000;
    RegroupTime(LE(TimeLen(micros), 1), LE(if micros < 0 then 1 else 0, 1), LE(s / 86_400, 4), LE(s / 3600 % 24, 1),
      LE(s / 60 % 60, 1), LE(s % 60, 1), if micro != 0 then LE(micro, 4) else [], rest);
  }

  method ReadClock(r: R.Reader, len: nat, ghost micros: int, ghost rest: seq<byte>) returns (value: int)
    requires r.Valid() && Abs(micros) / 86_400_000_000 < 0x1_0000_0000 && micros != 0 && len == TimeLen(micros)
    requires r.Ahead().whole && r.Ahead().payload == Clock(micros, rest)
    modifies r, r.buffer
    ensures r.Valid() && Passed(r, rest) && value == micros
  {
    hide Look, LE, Compression.Front;
    Pow256Values();
    ghost var micro0, seconds0 := Abs(micros) % 1_000_000, Abs(micros) / 1_000_000;
    ghost var us := if micro0 != 0 then LE(micro0, 4) else [];
    ghost var h, m, s := seconds0 / 3600 % 24, seconds0 / 60 % 60, seconds0 % 60;
    ghost var clock := LE(h, 1) + (LE(m, 1) + LE(s, 1)) + (us + rest);
    TimeParts(Abs(micros));
    var isNegative := ReadKnown(r, 1, if micros < 0 then 1 else 0, LE(seconds0 / 86_400, 4) + clock);
    var days := ReadKnown(r, 4, seconds0 / 86_400, clock);
    var hours, minutes, seconds := ReadThree(r, h, m, s, us + rest);
    hours := hours + days * 24;
    minutes := minutes + hours * 60;
    seconds := seconds + minutes * 60;
    var micro := ReadMicro(r, len, micro0, rest);
    value := seconds * 1_000_000 + micro;
    if isNegative != 0 {
      value := -value;
    }
  }

  /** The part of a second, if there is one. */
  method ReadMicro(r: R.Reader, len: nat, ghost micro: nat, ghost rest: seq<byte>) returns (value: int)
    requires r.Valid() && r.Ahead().whole && micro < 1_000_000 && (len >= 12 <==> micro != 0)
    requires r.Ahead().payload == (if micro != 0 then LE(micro, 4) else []) + rest
    modifies r, r.buffer
    ensures r.Valid() && Passed(r, rest) && value == micro
  {
    hide Look, LE, Compression.Front;
    Pow256Values();
    value := 0;
    if len >= 12 {
      value := ReadKnown(r, 4, micro, rest);
    } else {
      assert [] + rest == rest;
    }
  }

  /** Days, hours, minutes, seconds and microseconds are put together as they were taken apart. */
  lemma TimeParts(micros: nat)
    ensures var s := micros / 1_000_000;
      && micros == s * 1_000_000 + micros % 1_000_000
      && s == ((s / 86_400 * 24 + s / 3600 % 24) * 60 + s / 60 % 60) * 60 + s % 60
      && s / 86_400 == micros / 86_400_000_000
  {
    var s := micros / 1_000_000;
    assert s / 60 / 60 == s / 3600 && s / 3600 / 24 == s / 86_400;
  }

  lemma RegroupTime(a: seq<byte>, b: seq<byte>, c: seq<byte>, d: seq<byte>, e: seq<byte>, f: seq<byte>, g: seq<byte>,
      h: seq<byte>)
    ensures a + (b + (c + (d + (e + (f + g))))) + h == a + (b + (c + ((d + (e + f)) + (g + h))))
  {
    assert a + (b + (c + (d + (e + (f + g))))) + h == a + b + c + d + e + f + g + h;
    assert a + (b + (c + ((d + (e + f)) + (g + h)))) == a + b + c + d + e + f + g + h;
  }

  /** The value as it is read: bytes over the limit are skipped. */
  function Kept(c: Column, v: Value, maxColumnLen: nat): Value {
    if c.Bytes? && v.Blob? && |v.bytes| > maxColumnLen then Null else v
  }

  /** Length-encoded bytes: skipped, or through the window, or directly to an array. */
  method ReadBlob(r: R.Reader, maxColumnLen: nat, asBytes: bool, ghost bytes: seq<byte>, ghost rest: seq<byte>)
    returns (value: Value)
    requires r.Valid() && |bytes| < 0x1_0000_0000_0000_0000 && Begins(r, Lenenc.Encode(|bytes|) + bytes, rest)
    modifies r, r.buffer
    ensures r.Valid() && Passed(r, rest) && value == Kept(Bytes, Blob(bytes), maxColumnLen)
  {
    hide Look, Lenenc.Encode, Compression.Front;
    ConcatAssoc(Lenenc.Encode(|bytes|), bytes, rest);
    var len := ReadKnownLenenc(r, |bytes|, bytes + rest);
    Front(bytes, rest);
    if len > maxColumnLen {
      var _ := r.ReadVoid(len);
      return Null;
    } else if asBytes || len > r.buffer.Length - HEADER {
      var dest := new byte[len];
      var _ := r.ReadBytesToBuffer(dest);
      return Blob(dest[..]);
    } else {
      var res := r.ReadShortBytes(len);
      return Blob(res.value);
    }
  }

  method ReadBit(r: R.Reader, ghost b: bool, ghost rest: seq<byte>) returns (value: bool)
    requires r.Valid() && Begins(r, LE(if b then 0x0101 else 0x0001, 2), rest)
    modifies r, r.buffer
    ensures r.Valid() && Passed(r, rest) && value == b
  {
    hide Look, Compression.Front;
    LEUnroll(if b then 0x0101 else 0x0001);
    ghost var data: byte := if b then 1 else 0;
    assert LE(if b then 0x0101 else 0x0001, 2) + rest == Lenenc.Encode(1) + ([data] + rest);
    var len := ReadKnownLenenc(r, 1, [data] + rest);
    Front([data], rest);
    var res := r.ReadShortBytes(len);
    var bytes := res.value;
    assert bytes == [data];
    value := false;
    for j := 0 to |bytes|
      invariant value == exists k :: 0 <= k < j && bytes[k] != 0
    {
      if bytes[j] != 0 {
        value := true;
      }
    }
    assert value <==> bytes[0] != 0;
  }

  method ReadInteger(r: R.Reader, k: nat, unsigned: bool, ghost n: int, ghost rest: seq<byte>) returns (value: int)
    requires r.Valid() && Fits(Int(k, unsigned), Integer(n)) && Begins(r, LE(n % Pow256(k), k), rest)
    modifies r, r.buffer
    ensures r.Valid() && Passed(r, rest) && value == n
  {
    hide Look, LE, Compression.Front;
    var u := ReadKnown(r, k, n % Pow256(k), rest);
    TwosComplement(n, Pow256(k));
    value := if unsigned || 2 * u < Pow256(k) then u else u - Pow256(k);
  }

  lemma TwosComplement(n: int, p: nat)
    requires p >= 1
    ensures 0 <= n < p ==> n % p == n
    ensures 0 <= 2 * n + p < 2 * p ==> n == if 2 * (n % p) < p then n % p else n % p - p
  {
    if 0 <= n < p {
      ModUnique(n, p, 0, n);
    } else if n < 0 <= n + p {
      ModUnique(n, p, -1, n + p);
    }
  }

  method ReadValue(r: R.Reader, c: Column, maxColumnLen: nat, asBytes: bool, ghost v: Value, ghost rest: seq<byte>)
    returns (value: Value)
    requires r.Valid() && Fits(c, v) && !v.Null? && Begins(r, ValueBytes(c, v), rest)
    modifies r, r.buffer
    ensures r.Valid() && Passed(r, rest) && value == Kept(c, v, maxColumnLen)
  {
    hide Look, LE, Compression.Front, DateBytes, TimeBytes, Lenenc.Encode;
    match c {
      case Int(k, unsigned) =>
        var n := ReadInteger(r, k, unsigned, v.n, rest);
        return Integer(n);
      case Float(k) =>
        LEofFromLE(v.bits);
        var n := ReadKnown(r, k, FromLE(v.bits), rest);
        return Raw(LE(n, k));
      case DateTime =>
        value := ReadDate(r, v, rest);
      case Time =>
        var t := ReadTime(r, v.micros, rest);
        return Duration(t);
      case Bit =>
        var b := ReadBit(r, v.b, rest);
        return Bool(b);
      case Bytes =>
        value := ReadBlob(r, maxColumnLen, asBytes, v.bytes, rest);
    }
  }

  // ----- A row -----

  function KeptRow(cs: seq<Column>, row: seq<Value>, maxColumnLen: nat): (kept: seq<Value>)
    requires |cs| == |row|
    ensures |kept| == |row|
  {
    seq(|row|, i requires 0 <= i < |row| => Kept(cs[i], row[i], maxColumnLen))
  }

  /** One flag of the null mask, and where the next one is. */
  method NextFlag(nullBits: seq<byte>, at: nat, mask: nat, ghost flags: seq<bool>, ghost i: nat)
    returns (flag: bool, nextAt: nat, nextMask: nat)
    requires i < |flags| && nullBits == Bitmap(flags) && at == i / 8 && mask == Pow2(i % 8)
    ensures flag == flags[i] && nextAt == (i + 1) / 8 && nextMask == Pow2((i + 1) % 8)
  {
    hide Bitmap, Pow2, Has, Bits.Bit;
    BitmapBit(flags, i);
    HasIsBit(nullBits[at], i % 8);
    MaskNext(i);
    flag := Has(nullBits[at], mask);
    nextAt, nextMask := if mask != 0x80 then at else at + 1, if mask != 0x80 then mask * 2 else 1;
  }

  /** Deserialization undoes serialization, for any number of columns and any NULLs, and consumes exactly the row. */
  method DeserializeRow(r: R.Reader, cs: seq<Column>, maxColumnLen: nat, asBytes: bool, ghost row: seq<Value>,
      ghost rest: seq<byte>)
    returns (res: Result<seq<Value>>)
    requires r.Valid() && AllFit(cs, row) && Begins(r, RowBytes(cs, row), rest)
    modifies r, r.buffer
    ensures (|cs| + 2 + 7) / 8 > r.buffer.Length - HEADER <==> res == Err(TooLong)
    ensures res.Ok? ==> r.Valid() && Passed(r, rest) && res.value == KeptRow(cs, row, maxColumnLen)
    ensures res.Err? ==> res == Err(TooLong)
  {
    hide Look, Compression.Front, Bitmap, Values, AllFit, Kept;
    SameColumns(cs, row);
    ghost var flags := Flags(row);
    ConcatAssoc(Bitmap(flags), Values(cs, row), rest);
    Front(Bitmap(flags), Values(cs, row) + rest);
    var nullBits :- r.ReadShortBytes((|cs| + 2 + 7) / 8);
    var values := DeserializeValues(r, cs, nullBits, maxColumnLen, asBytes, row, rest);
    return Ok(values);
  }

  /** The values after the null mask. */
  method DeserializeValues(r: R.Reader, cs: seq<Column>, nullBits: seq<byte>, maxColumnLen: nat, asBytes: bool,
      ghost row: seq<Value>, ghost rest: seq<byte>)
    returns (values: seq<Value>)
    requires r.Valid() && AllFit(cs, row) && Begins(r, Values(cs, row), rest) && nullBits == Bitmap(Flags(row))
    modifies r, r.buffer
    ensures r.Valid() && Passed(r, rest) && values == KeptRow(cs, row, maxColumnLen)
  {
    hide Look, Compression.Front, Bitmap, Fits, ValueBytes, Values, Kept, Has, Bits.Bit, Pow2;
    ghost var flags := Flags(row);
    assert forall i :: 0 <= i < |row| ==> flags[i + 2] == row[i].Null?;
    var nColumns := |cs|;
    var nullBitsI, nullBitMask: nat := 0, 4; // starts from bit offset 2
    Pow2Values();
    values := [];
    assert cs[0..] == cs && row[0..] == row;
    for i := 0 to nColumns
      invariant r.Valid() && AllFit(cs[i..], row[i..]) && Begins(r, Values(cs[i..], row[i..]), rest)
      invariant Passed(r, r.Ahead().payload)
      invariant nullBitsI == (i + 2) / 8 && nullBitMask == Pow2((i + 2) % 8)
      invariant |values| == i && forall k :: 0 <= k < i ==> values[k] == Kept(cs[k], row[k], maxColumnLen)
    {
      var isNull;
      isNull, nullBitsI, nullBitMask := NextFlag(nullBits, nullBitsI, nullBitMask, flags, i + 2);
      ValuesGo(cs, row, i);
      ConcatAssoc(ValueBytes(cs[i], row[i]), Values(cs[i + 1..], row[i + 1..]), rest);
      var value :=
        ReadColumn(r, cs[i], maxColumnLen, asBytes, isNull, row[i], Values(cs[i + 1..], row[i + 1..]) + rest);
      values := values + [value];
    }
    ValuesEnd(cs, row);
    assert [] + rest == rest;
  }

  lemma SameColumns(cs: seq<Column>, row: seq<Value>)
    requires AllFit(cs, row)
    ensures |cs| == |row|
  {
  }

  /** A value, if the mask says that there is one. */
  method ReadColumn(r: R.Reader, c: Column, maxColumnLen: nat, asBytes: bool, isNull: bool, ghost v: Value,
      ghost rest: seq<byte>)
    returns (value: Value)
    requires r.Valid() && Fits(c, v) && isNull == v.Null? && Begins(r, ValueBytes(c, v), rest)
    modifies r, r.buffer
    ensures r.Valid() && Passed(r, rest) && value == Kept(c, v, maxColumnLen)
  {
    hide Look, Compression.Front, Fits, ValueBytes, Kept;
    KeptNull(c, v, maxColumnLen);
    if isNull {
      assert [] + rest == rest;
      value := Null;
    } else {
      value := ReadValue(r, c, maxColumnLen, asBytes, v, rest);
    }
  }

  lemma KeptNull(c: Column, v: Value, maxColumnLen: nat)
    requires Fits(c, v)
    ensures v.Null? ==> ValueBytes(c, v) == [] && Kept(c, v, maxColumnLen) == Null
  {
  }

  // ----- Many rows -----

  function RowsBytes(cs: seq<Column>, rows: seq<seq<Value>>): seq<byte>
    requires forall i :: 0 <= i < |rows| ==> AllFit(cs, rows[i])
  {
    if rows == [] then [] else RowBytes(cs, rows[0]) + RowsBytes(cs, rows[1..])
  }

  /** A concatenation of rows is read back as the list of rows. */
  method DeserializeRows(r: R.Reader, cs: seq<Column>, count: nat, maxColumnLen: nat, asBytes: bool,
      ghost rows: seq<seq<Value>>, ghost rest: seq<byte>)
    returns (res: seq<seq<Value>>)
    requires r.Valid() && |rows| == count && (|cs| + 2 + 7) / 8 <= r.buffer.Length - HEADER
    requires forall i :: 0 <= i < |rows| ==> AllFit(cs, rows[i])
    requires Begins(r, RowsBytes(cs, rows), rest)
    modifies r, r.buffer
    ensures r.Valid() && Passed(r, rest)
    ensures |res| == count && forall i :: 0 <= i < count ==> res[i] == KeptRow(cs, rows[i], maxColumnLen)
  {
    hide Look, Compression.Front, RowBytes, KeptRow;
    res := [];
    assert rows[0..] == rows;
    for i := 0 to count
      invariant r.Valid() && Begins(r, RowsBytes(cs, rows[i..]), rest) && Passed(r, r.Ahead().payload)
      invariant |res| == i && forall k :: 0 <= k < i ==> res[k] == KeptRow(cs, rows[k], maxColumnLen)
    {
      assert rows[i..][1..] == rows[i + 1..];
      ghost var more := RowsBytes(cs, rows[i + 1..]) + rest;
      ConcatAssoc(RowBytes(cs, rows[i]), RowsBytes(cs, rows[i + 1..]), rest);
      var row := DeserializeRow(r, cs, maxColumnLen, asBytes, rows[i], more);
      res := res + [row.value];
    }
    assert [] + rest == rest;
  }

  /** One packet with a row. */
  method SendRow(buffer: array<byte>, alg: Compression.Algorithm, codec: Compression.Codec, cs: seq<Column>,
      row: seq<Value>) returns (w: W.Writer)
    requires 32 <= buffer.Length <= MAX && (alg != Compression.Plain ==> Compression.Lawful(codec, alg))
    requires AllFit(cs, row) && HEADER + |RowBytes(cs, row)| <= buffer.Length
    modifies buffer
    ensures fresh(w) && w.WireOk() && w.alg == alg && w.codec == codec && w.sent == Frames(RowBytes(cs, row), 0)
  {
    hide Compression.Unpack, Compression.Lawful, Frames, RowBytes, AllFit, Fits, Compression.Increasing;
    w := Wire.Opened(buffer, alg, codec, []);
    ghost var bytes := RowBytes(cs, row);
    assert [] + bytes + [] == bytes;
    Wire.OnlyPacket(Frames(bytes, 0));
    SerializeRow(w, cs, row);
    w.Send();
  }

  /**
   A row goes from the writer to the reader, under any compression: what is read is the row, but for columns that are
   too long.
   */
  method RowReceived(buffer: array<byte>, window: array<byte>, alg: Compression.Algorithm, codec: Compression.Codec,
      cs: seq<Column>, row: seq<Value>, maxColumnLen: nat, asBytes: bool)
    returns (res: Result<seq<Value>>)
    requires 32 <= buffer.Length <= MAX && (alg != Compression.Plain ==> Compression.Lawful(codec, alg))
    requires AllFit(cs, row) && HEADER + |RowBytes(cs, row)| <= buffer.Length
    requires 32 <= window.Length <= MAX && (|cs| + 2 + 7) / 8 <= window.Length - HEADER
    modifies buffer, window
    ensures res == Ok(KeptRow(cs, row, maxColumnLen))
  {
    hide Compression.Unpack, Compression.Lawful, Compression.Front, Look, Frames, RowBytes, KeptRow, AllFit;
    var w := SendRow(buffer, alg, codec, cs, row);
    ghost var bytes := RowBytes(cs, row);
    var r := new R.Reader(window, alg, codec, w.wire);
    assert Frames(bytes, 0) + [] == Frames(bytes, 0);
    Wire.BeginPacket(r, bytes, 0, []);
    res := DeserializeRow(r, cs, maxColumnLen, asBytes, row, []);
  }
}
