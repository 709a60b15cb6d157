/**
 Execution of a prepared statement: long parameters are sent ahead as commands of their own,
 and the rest goes in one packet, whose length is computed before its bytes are written.
 */
module StmtExecute {
  import opened Bytes
  import ByteArrays
  import opened Results
  import opened Packets
  import opened Bits
  import Compression
  import Lenenc
  import Utf8
  import W = Writer

  const COM_STMT_EXECUTE: byte := 0x17
  const COM_STMT_SEND_LONG_DATA: byte := 0x18
  const NO_CURSOR: byte := 0

  /** A parameter: `Other` is a number that is not a 32-bit integer (its 8 bytes), `Stream` is the content of a readable
      stream or a reader, and `Json` is an object, already in its JSON form. */
  datatype Param =
    | Null
    | Bool(b: bool)
    | Int32(n: int)
    | Other(double: seq<byte>)
    | BigInt(big: int)
    | Text(s: Utf8.Str)
    | Date(year: int, month: nat, day: nat, hour: nat, minute: nat, second: nat, msec: nat)
    | Blob(bytes: seq<byte>)
    | Stream(content: seq<byte>)
    | Json(json: Utf8.Str)

  predicate WellTyped(p: Param) {
    && (p.Int32? ==> -0x8000_0000 <= p.n <= 0x7FFF_FFFF)
    && (p.Other? ==> |p.double| == 8)
  }

  /** Sent ahead, in commands of their own. */
  predicate IsLong(p: Param) {
    || (p.Text? && |p.s| >= 0xFB / 4)
    || (p.Blob? && |p.bytes| >= 0xFB)
    || p.Json?
  }

  function LongBytes(p: Param): seq<byte>
    requires IsLong(p)
  {
    if p.Text? then Utf8.Encode(p.s) else if p.Blob? then p.bytes else Utf8.Encode(p.json)
  }

  // ----- The execution packet -----

  /** The length of the value in the execution packet, as the size pass counts it. */
  function InlineSize(p: Param): nat {
    match p
    case Null => 0
    case Bool(_) => 1
    case Int32(_) => 4
    case Other(_) => 8
    case BigInt(_) => 8
    case Text(s) => if IsLong(p) then 0 else 1 + |Utf8.Encode(s)|
    case Date(_, _, _, _, _, _, msec) => if msec != 0 then 12 else 8
    case Blob(bytes) => if IsLong(p) then 0 else 1 + |bytes|
    case Stream(content) => if content == [] then 1 else 0
    case Json(_) => 0
  }

  /** The value as the write pass writes it. */
  function ValueBytes(p: Param): seq<byte> {
    match p
    case Null => []
    case Bool(b) => [if b then 1 else 0]
    case Int32(n) => LE(n % 0x1_0000_0000, 4)
    case Other(double) => double
    case BigInt(big) => LE(big % 0x1_0000_0000_0000_0000, 8)
    case Text(s) => if IsLong(p) then [] else Lenenc.Encode(|Utf8.Encode(s)|) + Utf8.Encode(s)
    case Date(year, month, day, hour, minute, second, msec) =>
      [if msec != 0 then 11 else 7] + LE(year % 0x1_0000, 2)
      + [Low8(month), Low8(day), Low8(hour), Low8(minute), Low8(second)]
      + if msec != 0 then LE(msec * 1000 % 0x1_0000_0000, 4) else []
    case Blob(bytes) => if IsLong(p) then [] else Lenenc.Encode(|bytes|) + bytes
    case Stream(content) => if content == [] then [0] else []
    case Json(_) => []
  }

  function TypeOf(p: Param): nat {
    match p
    case Bool(_) => 1
    case Int32(_) => 3
    case Other(_) => 5
    case BigInt(big) => if big > 0x7FFF_FFFF_FFFF_FFFF then 8 + 0x8000 else 8
    case Date(_, _, _, _, _, _, _) => 12
    case Blob(_) => 251
    case Stream(_) => 251
    case _ => 254
  }

  function Nulls(ps: seq<Param>): (bits: seq<bool>)
    ensures |bits| == |ps|
  {
    seq(|ps|, i requires 0 <= i < |ps| => ps[i].Null?)
  }

  function Types(ps: seq<Param>): (s: seq<byte>)
    ensures |s| == 2 * |ps|
  {
    if ps == [] then [] else Types(ps[..|ps| - 1]) + LE(TypeOf(ps[|ps| - 1]), 2)
  }

  function Values(ps: seq<Param>): seq<byte> {
    if ps == [] then [] else Values(ps[..|ps| - 1]) + ValueBytes(ps[|ps| - 1])
  }

  function InlineSizes(ps: seq<Param>): nat {
    if ps == [] then 0 else InlineSizes(ps[..|ps| - 1]) + InlineSize(ps[|ps| - 1])
  }

  function Head(stmtId: nat): (s: seq<byte>)
    ensures |s| == 10
  {
    [COM_STMT_EXECUTE] + LE(stmtId, 4) + [NO_CURSOR] + LE(1, 4)
  }

  function Body(stmtId: nat, ps: seq<Param>): seq<byte> {
    Head(stmtId) + Bitmap(Nulls(ps)) + [1] + Types(ps) + Values(ps)
  }

  /** The size pass and the write pass agree on every value, and no value is longer than the flush leaves room for. */
  lemma SizeIsLength(p: Param)
    requires WellTyped(p)
    ensures |ValueBytes(p)| == InlineSize(p) <= 0xFB
  {
    if p.Text? && !IsLong(p) {
      Utf8.EncodeBounds(p.s);
    }
  }

  lemma {:induction false} SizesAreLength(ps: seq<Param>)
    requires forall p :: p in ps ==> WellTyped(p)
    ensures |Values(ps)| == InlineSizes(ps)
    decreases |ps|
  {
    if ps != [] {
      SizesAreLength(ps[..|ps| - 1]);
      SizeIsLength(ps[|ps| - 1]);
    }
  }

  /** The bit, the type, and the value of each parameter are at the places where the server looks for them. */
  lemma BodyLayout(stmtId: nat, ps: seq<Param>, i: nat)
    requires i < |ps| && forall p :: p in ps ==> WellTyped(p)
    ensures var nBits := (|ps| + 7) / 8;
      var body := Body(stmtId, ps);
      && |body| == 11 + nBits + 2 * |ps| + InlineSizes(ps)
      && Bit(body[10 + i / 8], i % 8) == ps[i].Null?
      && body[10 + nBits] == 1
      && body[11 + nBits + 2 * i..][..2] == LE(TypeOf(ps[i]), 2)
      && var at := 11 + nBits + 2 * |ps| + InlineSizes(ps[..i]);
      at + InlineSize(ps[i]) <= |body| && body[at..at + InlineSize(ps[i])] == ValueBytes(ps[i])
  {
    hide Bitmap, Types, Values, ValueBytes, InlineSize, LE, Head, InlineSizes, Bit, TypeOf;
    var n, nBits := |ps|, (|ps| + 7) / 8;
    var body := Body(stmtId, ps);
    var b, t, v := Bitmap(Nulls(ps)), Types(ps), Values(ps);
    SizesAreLength(ps);
    BitmapBit(Nulls(ps), i);
    TypeAt(ps, i);
    ValueAt(ps, i);
    SizeIsLength(ps[i]);
    BodyParts(Head(stmtId), b, t, v);
    assert body[10 + i / 8] == body[10..10 + nBits][i / 8];
    SliceSlice(body, 11 + nBits, 11 + nBits + 2 * n, 2 * i, 2 * i + 2);
    assert body[11 + nBits + 2 * i..][..2] == body[11 + nBits + 2 * i..11 + nBits + 2 * i + 2];
    var at := InlineSizes(ps[..i]);
    assert body[11 + nBits + 2 * n..] == body[11 + nBits + 2 * n..|body|];
    SliceSlice(body, 11 + nBits + 2 * n, |body|, at, at + InlineSize(ps[i]));
  }

  lemma SliceAt(s: seq<byte>, a: seq<byte>, b: seq<byte>, at: nat, from: nat, to: nat)
    requires at <= |s| && s[at..] == a + b && from <= to <= |a|
    ensures at + to <= |s| && s[at + from..at + to] == a[from..to] && s[at + from..][..to - from] == a[from..to]
  {
    assert s[at..] == s[at..|s|];
    SliceSlice(s, at, |s|, from, to);
    assert s[at + from..][..to - from] == s[at + from..at + to];
    assert (a + b)[from..to] == a[from..to];
  }

  lemma BodyParts(h: seq<byte>, b: seq<byte>, t: seq<byte>, v: seq<byte>)
    ensures var s, at := h + b + [1] + t + v, |h| + |b| + 1;
      && |s| == at + |t| + |v|
      && s[|h|..at - 1] == b && s[at - 1] == 1 && s[at..at + |t|] == t && s[at + |t|..] == v
  {
  }

  lemma {:induction false} TypeAt(ps: seq<Param>, i: nat)
    requires i < |ps|
    ensures Types(ps)[2 * i..2 * i + 2] == LE(TypeOf(ps[i]), 2)
    decreases |ps|
  {
    var init, last := ps[..|ps| - 1], ps[|ps| - 1];
    hide LE, TypeOf;
    var a, b := Types(init), LE(TypeOf(last), 2);
    assert Types(ps) == a + b;
    hide Types;
    if i < |init| {
      TypeAt(init, i);
      SliceAt(a + b, a, b, 0, 2 * i, 2 * i + 2);
    } else {
      assert (a + b)[2 * i..2 * i + 2] == b;
    }
  }

  lemma {:induction false} ValueAt(ps: seq<Param>, i: nat)
    requires i < |ps| && forall p :: p in ps ==> WellTyped(p)
    ensures InlineSizes(ps[..i]) + InlineSize(ps[i]) <= |Values(ps)|
    ensures Values(ps)[InlineSizes(ps[..i])..InlineSizes(ps[..i]) + InlineSize(ps[i])] == ValueBytes(ps[i])
    decreases |ps|
  {
    hide ValueBytes, InlineSize;
    var init, last := ps[..|ps| - 1], ps[|ps| - 1];
    SizesAreLength(init);
    SizeIsLength(last);
    if i < |init| {
      ValueAt(init, i);
      assert init[..i] == ps[..i];
    } else {
      assert ps[..i] == init;
    }
  }

  // ----- Writing the execution packet -----

  /** The packet stream, with everything that is in the buffer. */
  ghost function Out(w: W.Writer): seq<byte>
    requires w.Valid()
    reads w, w.buffer
  {
    w.sent + w.buffer[..w.bufferEnd]
  }

  /** The packet stream, when the packet being written (if any) is finished. */
  ghost function Done(w: W.Writer): seq<byte>
    requires w.Valid() && (w.bufferStart != w.bufferEnd ==> w.Open())
    reads w, w.buffer
  {
    if w.bufferStart == w.bufferEnd then w.sent else w.FinishedWith([])
  }

  /** A store at the end of what is written. A store outside the buffer throws or is dropped: that is `!ok`. */
  method Store(w: W.Writer, bytes: seq<byte>) returns (ok: bool)
    requires w.Valid()
    modifies w`bufferEnd, w.buffer
    ensures w.Valid() && ok == (old(w.bufferEnd) + |bytes| <= w.buffer.Length)
    ensures w.bufferEnd == old(w.bufferEnd) + (if ok then |bytes| else 0)
    ensures Out(w) == old(Out(w)) + (if ok then bytes else [])
  {
    hide Compression.Unpack, Compression.Lawful;
    ok := w.bufferEnd + |bytes| <= w.buffer.Length;
    if ok {
      ByteArrays.Put(w.buffer, w.bufferEnd, bytes);
      assert w.buffer[..w.bufferEnd + |bytes|] == w.buffer[..w.bufferEnd] + bytes;
      ConcatAssoc(w.sent, w.buffer[..w.bufferEnd], bytes);
      w.bufferEnd := w.bufferEnd + |bytes|;
    }
  }

  /** Flushes the buffer, in the middle of a packet. */
  method FlushAll(w: W.Writer)
    requires w.Valid()
    modifies w, w.buffer
    ensures w.Valid() && w.bufferStart == w.bufferEnd == 0 && Out(w) == w.sent == old(Out(w))
  {
    hide Compression.Unpack, Compression.Lawful, Compression.Layout, Compression.Tiles, Compression.CommandsApart,
      Compression.Packed, Compression.IdAfter;
    w.SendPackets(w.bufferEnd);
    w.bufferStart := 0;
    w.bufferEnd := 0;
    assert w.buffer[..0] == [];
  }

  /** The bytes that the null bitmap and the flag need before the first time that the buffer can be flushed. */
  function Unguarded(n: nat): nat {
    if n >= 8 then 0 else if n == 0 then 1 else 2
  }

  method SendBitmap(w: W.Writer, ps: seq<Param>) returns (ok: bool)
    requires w.Valid()
    modifies w, w.buffer
    ensures w.Valid()
    ensures ok == (old(w.bufferEnd) + Unguarded(|ps|) <= w.buffer.Length)
    ensures ok ==> Out(w) == old(Out(w)) + Bitmap(Nulls(ps)) + [1]
  {
    hide Compression.Unpack, Compression.Lawful, Bitmap, Out, Or, Filling;
    ghost var nulls, base := Nulls(ps), Out(w);
    var nullBits: nat, nullBitMask: nat := 0, 1;
    ghost var full := 0;
    FillingBegins(nulls);
    assert base + [] == base;
    for i := 0 to |ps|
      invariant w.Valid() && full <= i && Filling(nulls, i, full, nullBits, nullBitMask)
      invariant Out(w) == base + Bitmap(nulls[..full])
      invariant full == 0 ==> w.bufferEnd == old(w.bufferEnd)
      invariant full != 0 ==> full >= 8 && w.bufferEnd + 2 <= w.buffer.Length
    {
      FillingGoes(nulls, i, full, nullBits, nullBitMask);
      if ps[i].Null? {
        nullBits := Or(nullBits, nullBitMask);
      }
      if nullBitMask != 0x80 {
        nullBitMask := nullBitMask * 2;
      } else {
        if w.bufferEnd + 3 >= w.buffer.Length {
          FlushAll(w);
        }
        var _ := Store(w, [nullBits]);
        ConcatAssoc(base, Bitmap(nulls[..full]), [nullBits]);
        nullBits, nullBitMask, full := 0, 1, i + 1;
        AtLeastEight(nulls, full);
      }
    }
    FillingEnds(nulls, full, nullBits, nullBitMask);
    EndMask(nulls, full, nullBits, nullBitMask);
    ok := true;
    ConcatAssoc(base, Bitmap(nulls[..full]), if nullBitMask != 1 then [nullBits] else []);
    if nullBitMask != 1 {
      ok := Store(w, [nullBits]);
    }
    if ok {
      ok := Store(w, [1]);
    }
  }

  lemma AtLeastEight(nulls: seq<bool>, full: nat)
    requires full > 0 && Filling(nulls, full, full, 0, 1)
    ensures full >= 8
  {
  }

  lemma EndMask(nulls: seq<bool>, full: nat, bits: nat, mask: nat)
    requires Filling(nulls, |nulls|, full, bits, mask)
    ensures mask == 1 <==> |nulls| == full
    ensures |nulls| >= 8 <==> full > 0
  {
  }

  method SendTypes(w: W.Writer, ps: seq<Param>)
    requires w.Valid()
    modifies w, w.buffer
    ensures w.Valid() && Out(w) == old(Out(w)) + Types(ps)
  {
    hide Compression.Unpack, Compression.Lawful, Out, LE;
    ghost var base := Out(w);
    assert base + [] == base && ps[..0] == [];
    for i := 0 to |ps|
      invariant w.Valid() && Out(w) == base + Types(ps[..i])
    {
      if w.bufferEnd + 2 >= w.buffer.Length { // if cannot add the type
        FlushAll(w);
      }
      var _ := Store(w, LE(TypeOf(ps[i]), 2));
      assert ps[..i + 1][..i] == ps[..i];
      ConcatAssoc(base, Types(ps[..i]), LE(TypeOf(ps[i]), 2));
    }
    assert ps[..|ps|] == ps;
  }

  method SendValues(w: W.Writer, ps: seq<Param>)
    requires w.Valid() && w.buffer.Length > 0xFB && forall p :: p in ps ==> WellTyped(p)
    modifies w, w.buffer
    ensures w.Valid() && Out(w) == old(Out(w)) + Values(ps)
  {
    hide Compression.Unpack, Compression.Lawful, Out, ValueBytes, InlineSize;
    ghost var base := Out(w);
    assert base + [] == base && ps[..0] == [];
    for i := 0 to |ps|
      invariant w.Valid() && Out(w) == base + Values(ps[..i])
    {
      if w.bufferEnd + 0xFB >= w.buffer.Length { // if cannot add the longest possible value
        FlushAll(w);
      }
      assert ps[i] in ps;
      SizeIsLength(ps[i]);
      var _ := Store(w, ValueBytes(ps[i]));
      assert ps[..i + 1][..i] == ps[..i];
      ConcatAssoc(base, Values(ps[..i]), ValueBytes(ps[i]));
    }
    assert ps[..|ps|] == ps;
  }

  /** Where the next packet begins in the buffer. */
  ghost function Queued(w: W.Writer): nat
    reads w
  {
    if w.bufferStart == w.bufferEnd then 0 else w.bufferEnd
  }

  /** The packet is one well-formed packet of the announced length; it is sent if and only if it is not too long,
      and the buffer has room for its header, its 10 fixed bytes, and the bytes that are written without a check. */
  method SendExecutePacket(w: W.Writer, stmtId: nat, ps: seq<Param>, payloadLength: nat) returns (r: Result<bool>)
    requires w.Valid() && w.buffer.Length > 0xFB && (w.bufferStart != w.bufferEnd ==> w.Open())
    requires w.bufferEnd + HEADER <= w.buffer.Length
    requires forall p :: p in ps ==> WellTyped(p)
    requires payloadLength == |Body(stmtId, ps)|
    modifies w, w.buffer
    ensures r.Ok? <==> payloadLength < MAX && old(Queued(w)) + HEADER + 10 + Unguarded(|ps|) <= w.buffer.Length
    ensures r.Ok? ==> w.Valid() && w.bufferStart == w.bufferEnd == 0
    ensures r.Ok? ==> w.sent == old(Done(w)) + Frames(Body(stmtId, ps), 0)
  {
    hide Compression.Unpack, Compression.Lawful, Bitmap, Types, Values, Header, Nulls, Head, Out, Done;
    if payloadLength >= MAX {
      return Err(TooLong);
    }
    BeginExecutePacket(w, payloadLength);
    ghost var base, header := old(Done(w)), Header(payloadLength, 0);
    var ok := Store(w, Head(stmtId));
    if !ok {
      return Err(OutOfRoom);
    }
    ok := SendBitmap(w, ps);
    if !ok {
      return Err(OutOfRoom);
    }
    SendTypes(w, ps);
    SendValues(w, ps);
    if w.bufferEnd > 0 {
      FlushAll(w);
    } else {
      AllOut(w);
    }
    Gather(base, header, Head(stmtId), Bitmap(Nulls(ps)), [1], Types(ps), Values(ps));
    return Ok(true);
  }

  lemma AllOut(w: W.Writer)
    requires w.Valid() && w.bufferEnd == 0
    ensures Out(w) == w.sent
  {
    assert w.buffer[..0] == [];
  }

  /** The header, that declares what is going to be written. */
  method BeginExecutePacket(w: W.Writer, payloadLength: nat)
    requires w.Valid() && (w.bufferStart != w.bufferEnd ==> w.Open()) && w.bufferEnd + HEADER <= w.buffer.Length
    requires payloadLength < MAX
    modifies w, w.buffer
    ensures w.Valid() && w.bufferEnd == old(Queued(w)) + HEADER
    ensures Out(w) == old(Done(w)) + Header(payloadLength, 0)
  {
    hide Compression.Unpack, Compression.Lawful, Header;
    w.StartWritingNewPacket(true);
    w.SetHeader(payloadLength);
    assert w.buffer[..w.bufferEnd] == w.buffer[..w.bufferStart] + Header(payloadLength, 0);
    ConcatAssoc(w.sent, w.buffer[..w.bufferStart], Header(payloadLength, 0));
  }

  lemma Gather(a: seq<byte>, b: seq<byte>, c: seq<byte>, d: seq<byte>, e: seq<byte>, f: seq<byte>, g: seq<byte>)
    ensures a + b + c + d + e + f + g == a + (b + (c + d + e + f + g))
  {
  }

  // ----- Long parameters -----

  /** The data of a parameter, as it is cut into commands: in one piece, or in the pieces that a stream delivers. */
  predicate PiecesOf(p: Param, pieces: seq<seq<byte>>) {
    if IsLong(p) then pieces == [LongBytes(p)]
    else if p.Stream? then Flatten(pieces) == p.content && NonEmpty(pieces)
    else pieces == []
  }

  predicate NonEmpty(pieces: seq<seq<byte>>) {
    forall i :: 0 <= i < |pieces| ==> pieces[i] != []
  }

  function Flatten(pieces: seq<seq<byte>>): seq<byte> {
    if pieces == [] then [] else Flatten(pieces[..|pieces| - 1]) + pieces[|pieces| - 1]
  }

  function Prefix(stmtId: nat, i: nat): (s: seq<byte>)
    ensures |s| == 7
  {
    [COM_STMT_SEND_LONG_DATA] + LE(stmtId, 4) + LE(i, 2)
  }

  /** Each piece is a command of its own, numbered from 0. */
  function PiecePackets(stmtId: nat, i: nat, pieces: seq<seq<byte>>): seq<byte> {
    if pieces == [] then []
    else PiecePackets(stmtId, i, pieces[..|pieces| - 1]) + Frames(Prefix(stmtId, i) + pieces[|pieces| - 1], 0)
  }

  function LongPackets(stmtId: nat, parts: seq<seq<seq<byte>>>): seq<byte> {
    if parts == [] then []
    else LongPackets(stmtId, parts[..|parts| - 1]) + PiecePackets(stmtId, |parts| - 1, parts[|parts| - 1])
  }

  /**
   What a parameter does to the buffer where `q` bytes of earlier packets wait: how many wait after it, and whether
   none are lost.
   */
  function After(bufLen: nat, plain: bool, q: nat, p: Param): (nat, bool) {
    if IsLong(p) then
      var len := |LongBytes(p)|;
      var end := q + HEADER + 7;
      if p.Blob? && plain && 7 + len < MAX && end + len > bufLen && len + W.PRELUDE <= bufLen then (0, false)
      else if W.EndAfter(q, end, len) + W.PRELUDE <= bufLen then (W.EndAfter(q, end, len), true)
      else (0, true)
    else if p.Stream? then (0, p.content != [] || q == 0)
    else (q, true)
  }

  /** The same for all the parameters: packets are lost when the tail of a blob waits without a header,
      or when an empty stream comes while earlier packets wait. */
  function Fate(bufLen: nat, plain: bool, q: nat, ps: seq<Param>): (nat, bool) {
    if ps == [] then (q, true)
    else
      var (q', lossless) := Fate(bufLen, plain, q, ps[..|ps| - 1]);
      var (q'', here) := After(bufLen, plain, q', ps[|ps| - 1]);
      (q'', lossless && here)
  }

  /** Between packets: the reserve is free. */
  ghost predicate Ready(w: W.Writer)
    reads w
  {
    w.Valid() && (w.bufferStart != w.bufferEnd ==> w.Open()) && w.bufferEnd + W.PRELUDE <= w.buffer.Length
  }

  /** Begins a command with the data of parameter `i`. */
  method StartLongData(w: W.Writer, stmtId: nat, i: nat)
    requires Ready(w)
    modifies w, w.buffer
    ensures w.Open() && w.Committed() == old(Done(w)) && w.Current() == Prefix(stmtId, i) && w.sequenceId == 0
    ensures w.sent == old(w.sent)
    ensures w.bufferStart == old(Queued(w)) && w.bufferEnd == w.bufferStart + HEADER + 7
  {
    hide Compression.Unpack, Compression.Lawful, Frames, Prefix;
    w.StartWritingNewPacket(true);
    if old(w.bufferStart) == old(w.bufferEnd) {
      assert w.buffer[..0] == [] && w.Committed() == w.sent;
    }
    w.WriteBytes(Prefix(stmtId, i));
    assert w.Current() == Prefix(stmtId, i);
  }

  method SendLongText(w: W.Writer, stmtId: nat, i: nat, str: Utf8.Str)
    requires Ready(w)
    modifies w, w.buffer
    ensures Ready(w) && Done(w) == old(Done(w)) + Frames(Prefix(stmtId, i) + Utf8.Encode(str), 0)
    ensures var len, end := |Utf8.Encode(str)|, old(Queued(w)) + HEADER + 7;
      Queued(w) == if W.EndAfter(old(Queued(w)), end, len) + W.PRELUDE <= w.buffer.Length
        then W.EndAfter(old(Queued(w)), end, len) else 0
  {
    hide Compression.Unpack, Compression.Lawful, Frames, Prefix, Utf8.Encode;
    StartLongData(w, stmtId, i);
    var waiting := w.SendString(str, true);
  }

  method SendLongBlob(w: W.Writer, stmtId: nat, i: nat, bytes: seq<byte>)
    requires Ready(w)
    modifies w, w.buffer
    ensures Ready(w)
    ensures var tailLost := w.alg == Compression.Plain && 7 + |bytes| < MAX
        && old(Queued(w)) + HEADER + 7 + |bytes| > w.buffer.Length && |bytes| + W.PRELUDE <= w.buffer.Length;
      && (tailLost ==> Queued(w) == 0 && |Done(w)| < |old(Done(w)) + Frames(Prefix(stmtId, i) + bytes, 0)|)
      && (!tailLost ==> Done(w) == old(Done(w)) + Frames(Prefix(stmtId, i) + bytes, 0))
      && (!tailLost ==>
            var end := old(Queued(w)) + HEADER + 7;
            Queued(w) == if W.EndAfter(old(Queued(w)), end, |bytes|) + W.PRELUDE <= w.buffer.Length
              then W.EndAfter(old(Queued(w)), end, |bytes|) else 0)
  {
    hide Compression.Unpack, Compression.Lawful, Compression.Increasing, Frames, Prefix, W.EndAfter;
    var data := new byte[|bytes|](k requires 0 <= k < |bytes| => bytes[k]);
    assert data[..] == bytes && data[0..|bytes|] == bytes;
    StartLongData(w, stmtId, i);
    ghost var goal := w.FinishedWith(bytes);
    var waiting := w.SendBytes(data, 0, |bytes|, true);
    if w.bufferStart == w.bufferEnd && waiting {
      assert |goal| == |w.sent| + |bytes|;
    }
  }

  /** The pieces that the stream delivers, as many bytes at a time as it likes, and as the buffer has room for. */
  method SendStreamed(w: W.Writer, stmtId: nat, i: nat, content: seq<byte>) returns (ghost pieces: seq<seq<byte>>)
    requires Ready(w)
    modifies w, w.buffer
    ensures Ready(w) && Queued(w) == 0
    ensures Flatten(pieces) == content && NonEmpty(pieces)
    ensures content == [] ==> Done(w) == old(w.sent)
    ensures content != [] ==> Done(w) == old(Done(w)) + PiecePackets(stmtId, i, pieces)
  {
    hide Compression.Unpack, Compression.Lawful, Frames, Prefix, Flatten, PiecePackets, NonEmpty;
    PiecesBegin(stmtId, i);
    pieces := [];
    var pos := 0;
    ghost var base := Done(w);
    assert base + [] == base && content[..0] == [];
    while true
      invariant Ready(w) && 0 <= pos <= |content| && Flatten(pieces) == content[..pos] && NonEmpty(pieces)
      invariant Done(w) == base + PiecePackets(stmtId, i, pieces)
      invariant if pos == 0 then w.sent == old(w.sent) else w.bufferStart == w.bufferEnd == 0
      decreases |content| - pos
    {
      StartLongData(w, stmtId, i);
      if pos == |content| {
        w.DiscardPacket();
        assert content[..pos] == content;
        return;
      }
      var room := w.buffer.Length - w.bufferEnd;
      var n :| 1 <= n <= room && pos + n <= |content|;
      ghost var before, piece := pieces, content[pos..pos + n];
      PiecesGo(stmtId, i, before, piece);
      w.WriteBytes(content[pos..pos + n]);
      assert w.Current() + [] == Prefix(stmtId, i) + piece;
      w.Send();
      pieces := pieces + [piece];
      assert content[..pos] + piece == content[..pos + n];
      ConcatAssoc(base, PiecePackets(stmtId, i, before), Frames(Prefix(stmtId, i) + piece, 0));
      pos := pos + n;
    }
  }

  lemma PiecesBegin(stmtId: nat, i: nat)
    ensures Flatten([]) == [] && PiecePackets(stmtId, i, []) == [] && NonEmpty([])
  {
  }

  lemma PiecesGo(stmtId: nat, i: nat, pieces: seq<seq<byte>>, piece: seq<byte>)
    ensures Flatten(pieces + [piece]) == Flatten(pieces) + piece
    ensures PiecePackets(stmtId, i, pieces + [piece]) ==
      PiecePackets(stmtId, i, pieces) + Frames(Prefix(stmtId, i) + piece, 0)
    ensures NonEmpty(pieces) && piece != [] ==> NonEmpty(pieces + [piece])
  {
    assert (pieces + [piece])[..|pieces|] == pieces;
  }

  lemma {:induction false} FlattenLonger(pieces: seq<seq<byte>>)
    requires NonEmpty(pieces)
    ensures |Flatten(pieces)| >= |pieces|
    decreases |pieces|
  {
    if pieces != [] {
      FlattenLonger(pieces[..|pieces| - 1]);
    }
  }

  /** A parameter that is sent ahead, or has nothing to send. */
  method SendLongParam(w: W.Writer, stmtId: nat, i: nat, p: Param) returns (ghost pieces: seq<seq<byte>>)
    requires Ready(w)
    modifies w, w.buffer
    ensures Ready(w) && PiecesOf(p, pieces)
    ensures var (q, lossless) := After(w.buffer.Length, w.alg == Compression.Plain, old(Queued(w)), p);
      && Queued(w) == q
      && (lossless ==> Done(w) == old(Done(w)) + PiecePackets(stmtId, i, pieces))
      && (!lossless ==> |Done(w)| < |old(Done(w)) + PiecePackets(stmtId, i, pieces)|)
  {
    hide Compression.Unpack, Compression.Lawful, Frames, Prefix, Utf8.Encode;
    pieces := [];
    if IsLong(p) {
      pieces := [LongBytes(p)];
      assert pieces[..0] == []
        && [] + Frames(Prefix(stmtId, i) + LongBytes(p), 0) == Frames(Prefix(stmtId, i) + LongBytes(p), 0);
      match p {
        case Text(s) => SendLongText(w, stmtId, i, s);
        case Json(s) => SendLongText(w, stmtId, i, s);
        case Blob(bytes) => SendLongBlob(w, stmtId, i, bytes);
      }
    } else if p.Stream? {
      pieces := SendStreamed(w, stmtId, i, p.content);
      if p.content == [] {
        FlattenLonger(pieces);
      }
    }
  }

  /**
   The whole command: the long parameters, and the execution packet after them. It succeeds if and only if the packet is
   not too long and there is room for the unchecked bytes; and then the stream is complete if and only if nothing was
   lost on the way.
   */
  method SendComStmtExecute(w: W.Writer, stmtId: nat, ps: seq<Param>)
    returns (r: Result<bool>, ghost parts: seq<seq<seq<byte>>>)
    requires Ready(w) && w.buffer.Length > 0xFB && forall p :: p in ps ==> WellTyped(p)
    modifies w, w.buffer
    ensures |parts| == |ps| && forall i :: 0 <= i < |ps| ==> PiecesOf(ps[i], parts[i])
    ensures var (q, lossless) := Fate(w.buffer.Length, w.alg == Compression.Plain, old(Queued(w)), ps);
      && (r.Ok? <==> |Body(stmtId, ps)| < MAX && q + HEADER + 10 + Unguarded(|ps|) <= w.buffer.Length)
      && (r.Ok? ==> (w.sent == old(Done(w)) + LongPackets(stmtId, parts) + Frames(Body(stmtId, ps), 0) <==> lossless))
  {
    hide Compression.Unpack, Compression.Lawful, Frames, Body, PiecesOf, After, InlineSize, Bitmap, IsLong, Fate,
      LongPackets, PiecePackets, InlineSizes, Done;
    FoldsBegin(w.buffer.Length, w.alg == Compression.Plain, Queued(w), stmtId);
    var bitmaskAndTypesSize := |ps| / 8 + (if |ps| % 8 != 0 then 1 else 0) + 2 * |ps|;
    var payloadLength := 11 + bitmaskAndTypesSize;
    parts := [];
    ghost var base, q, lossless := Done(w), Queued(w), true;
    assert base + [] == base && ps[..0] == [];
    for i := 0 to |ps|
      invariant Ready(w) && payloadLength == 11 + bitmaskAndTypesSize + InlineSizes(ps[..i])
      invariant |parts| == i && forall k :: 0 <= k < i ==> PiecesOf(ps[k], parts[k])
      invariant (q, lossless) == Fate(w.buffer.Length, w.alg == Compression.Plain, old(Queued(w)), ps[..i])
        && q == Queued(w)
      invariant lossless ==> Done(w) == base + LongPackets(stmtId, parts)
      invariant !lossless ==> |Done(w)| < |base + LongPackets(stmtId, parts)|
    {
      payloadLength := payloadLength + InlineSize(ps[i]);
      ghost var before := parts;
      ghost var pieces := SendLongParam(w, stmtId, i, ps[i]);
      parts := parts + [pieces];
      FoldsGo(w.buffer.Length, w.alg == Compression.Plain, old(Queued(w)), stmtId, ps[..i], ps[i], before, pieces);
      assert ps[..i + 1] == ps[..i] + [ps[i]];
      ConcatAssoc(base, LongPackets(stmtId, before), PiecePackets(stmtId, i, pieces));
      var (q', here) := After(w.buffer.Length, w.alg == Compression.Plain, q, ps[i]);
      q, lossless := q', lossless && here;
    }
    assert ps[..|ps|] == ps;
    BodyLength(stmtId, ps);
    r := SendExecutePacket(w, stmtId, ps, payloadLength);
  }

  lemma FoldsBegin(bufLen: nat, plain: bool, q: nat, stmtId: nat)
    ensures Fate(bufLen, plain, q, []) == (q, true) && InlineSizes([]) == 0 && LongPackets(stmtId, []) == []
  {
  }

  lemma FoldsGo(bufLen: nat, plain: bool, q: nat, stmtId: nat, ps: seq<Param>, p: Param, parts: seq<seq<seq<byte>>>,
      pieces: seq<seq<byte>>)
    ensures var (q', lossless) := Fate(bufLen, plain, q, ps);
      var (q'', here) := After(bufLen, plain, q', p);
      Fate(bufLen, plain, q, ps + [p]) == (q'', lossless && here)
    ensures InlineSizes(ps + [p]) == InlineSizes(ps) + InlineSize(p)
    ensures LongPackets(stmtId, parts + [pieces]) == LongPackets(stmtId, parts) + PiecePackets(stmtId, |parts|, pieces)
  {
    assert (ps + [p])[..|ps|] == ps && (parts + [pieces])[..|parts|] == parts;
  }

  /** The length computed up front. */
  lemma BodyLength(stmtId: nat, ps: seq<Param>)
    requires forall p :: p in ps ==> WellTyped(p)
    ensures |Body(stmtId, ps)| == 11 + |ps| / 8 + (if |ps| % 8 != 0 then 1 else 0) + 2 * |ps| + InlineSizes(ps)
  {
    SizesAreLength(ps);
  }

  /** The reserve that is kept behind a waiting packet does not give the execution packet the room it needs:
      one short parameter after a packet that ends exactly before the reserve. */
  lemma ReserveIsShort(bufLen: nat)
    requires bufLen == 8192
    ensures var text := seq(8169, _ => 97); // the data is 8169 letters "a"
      var ps := [Text(text), Null];
      && Fate(bufLen, true, 0, ps) == (8180, true)
      && 8180 + W.PRELUDE <= bufLen
      && 8180 + HEADER + 10 + Unguarded(|ps|) > bufLen
  {
    var text := seq(8169, _ => 97);
    var ps := [Text(text), Null];
    assert forall c :: c in text ==> c == 97;
    AsciiLength(text);
    assert ps[..1] == [Text(text)] && ps[..1][..0] == [];
    assert After(bufLen, true, 0, Text(text)) == (8180, true);
    assert Fate(bufLen, true, 0, [Text(text)]) == (8180, true);
  }

  /**
   An empty stream after a waiting packet, and a blob that does not fit behind one: both lose data in the ordinary
   protocol.
   */
  lemma Losses(bufLen: nat, big: seq<byte>)
    requires bufLen == 8192 && |big| == 8100
    ensures var text := seq(100, _ => 97);
      && !Fate(bufLen, true, 0, [Text(text), Stream([])]).1
      && !Fate(bufLen, true, 0, [Text(text), Blob(big)]).1
      && Fate(bufLen, false, 0, [Text(text), Blob(big)]).1
  {
    var text := seq(100, _ => 97);
    assert forall c :: c in text ==> c == 97;
    AsciiLength(text);
    forall plain: bool, p ensures Fate(bufLen, plain, 0, [Text(text), p]) == After(bufLen, plain, 111, p) {
      assert [Text(text), p][..1] == [Text(text)] && [Text(text)][..0] == [];
      assert After(bufLen, plain, 0, Text(text)) == (111, true);
      assert Fate(bufLen, plain, 0, [Text(text)]) == (111, true);
    }
  }

  lemma {:induction false} AsciiLength(s: Utf8.Str)
    requires forall c :: c in s ==> c == 97
    ensures |Utf8.Encode(s)| == |s|
    decreases |s|
  {
    if s != [] {
      assert s[0] in s && forall c :: c in s[1..] ==> c in s;
      AsciiLength(s[1..]);
    }
  }
}
