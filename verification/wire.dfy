/** Both halves of a connection together. */
module Wire {
  import opened Bytes
  import opened Results
  import opened Packets
  import opened Compression
  import Lenenc
  import R = Reader
  import W = Writer

  // ----- Any sequence of reads -----

  datatype Op = Uint(k: nat) | LenencInt | ShortBytes(n: nat) | Bulk(n: nat) | Skip(n: nat)
  datatype Item = Number(value: int) | Chunk(bytes: seq<byte>) | Nothing

  /** How many bytes of the payload the operation takes. */
  function Length(op: Op, p: seq<byte>): nat {
    match op
    case Uint(k) => k
    case LenencInt => if p == [] then 1 else Lenenc.Size(p[0])
    case ShortBytes(n) => n
    case Bulk(n) => n
    case Skip(n) => n
  }

  /** What it makes of them. */
  function Meaning(op: Op, bytes: seq<byte>): Item
    requires op.LenencInt? ==> bytes != [] && |bytes| == Lenenc.Size(bytes[0])
  {
    match op
    case Uint(_) => Number(FromLE(bytes))
    case LenencInt => Number(Lenenc.Decode(bytes))
    case Skip(_) => Nothing
    case _ => Chunk(bytes)
  }

  /** The operations stay inside the payload, and do what their names allow. */
  predicate Allowed(ops: seq<Op>, p: seq<byte>, bufferLen: nat)
    decreases |ops|
  {
    ops == [] ||
    (&& Length(ops[0], p) <= |p|
     && (ops[0].Uint? ==> 1 <= ops[0].k <= 8)
     && (ops[0].ShortBytes? ==> ops[0].n + HEADER <= bufferLen)
     && Allowed(ops[1..], p[Length(ops[0], p)..], bufferLen))
  }

  /** The consecutive slices of the payload. */
  function Slices(ops: seq<Op>, p: seq<byte>, bufferLen: nat): (items: seq<Item>)
    requires Allowed(ops, p, bufferLen)
    decreases |ops|
  {
    if ops == [] then []
    else
      var n := Length(ops[0], p);
      assert ops[0].LenencInt? ==> p[..n][0] == p[0];
      [Meaning(ops[0], p[..n])] + Slices(ops[1..], p[n..], bufferLen)
  }

  function Leftover(ops: seq<Op>, p: seq<byte>, bufferLen: nat): seq<byte>
    requires Allowed(ops, p, bufferLen)
    decreases |ops|
  {
    if ops == [] then p else Leftover(ops[1..], p[Length(ops[0], p)..], bufferLen)
  }

  method RunOne(r: R.Reader, op: Op) returns (res: Result<Item>)
    requires r.Valid() && r.Ahead().whole && Allowed([op], r.Ahead().payload, r.buffer.Length)
    modifies r, r.buffer
    ensures r.Valid() && res.Ok?
    ensures var p := old(r.Ahead()).payload;
      var n := Length(op, p);
      && n <= |p| && r.Ahead() == old(r.Ahead()).Drop(n)
      && (op.LenencInt? ==> p != [] && p[..n][0] == p[0]) && res.value == Meaning(op, p[..n])
  {
    hide Look, Front;
    ghost var p := r.Ahead().payload;
    match op {
      case Uint(k) =>
        var v := r.ReadUint(k);
        res := Ok(Number(v.value));
      case LenencInt =>
        var v := r.ReadLenencInt();
        res := Ok(Number(v.value));
        assert p[..Lenenc.Size(p[0])][0] == p[0];
      case ShortBytes(n) =>
        var v := r.ReadShortBytes(n);
        res := Ok(Chunk(v.value));
      case Bulk(n) =>
        var dest := new byte[n];
        var _ := r.ReadBytesToBuffer(dest);
        res := Ok(Chunk(dest[..]));
      case Skip(n) =>
        var _ := r.ReadVoid(n);
        res := Ok(Nothing);
    }
  }

  /** However the payload is split into packets, and the stream into chunks, the reads return its consecutive slices. */
  method RunReads(r: R.Reader, ops: seq<Op>) returns (res: Result<seq<Item>>)
    requires r.Valid() && r.Ahead().whole && Allowed(ops, r.Ahead().payload, r.buffer.Length)
    modifies r, r.buffer
    ensures r.Valid() && res == Ok(Slices(ops, old(r.Ahead()).payload, r.buffer.Length))
    ensures r.Ahead() == old(r.Ahead()).(payload := Leftover(ops, old(r.Ahead()).payload, r.buffer.Length))
  {
    hide Look, Front;
    ghost var p := r.Ahead().payload;
    var items := [];
    var i := 0;
    assert ops[0..] == ops;
    while i < |ops|
      invariant 0 <= i <= |ops| && r.Valid() && r.Ahead().whole
      invariant Allowed(ops[i..], r.Ahead().payload, r.buffer.Length)
      invariant items + Slices(ops[i..], r.Ahead().payload, r.buffer.Length) == Slices(ops, p, r.buffer.Length)
      invariant Leftover(ops[i..], r.Ahead().payload, r.buffer.Length) == Leftover(ops, p, r.buffer.Length)
      invariant r.Ahead() == old(r.Ahead()).(payload := r.Ahead().payload)
    {
      ghost var rest := ops[i..];
      assert rest[0] == ops[i] && rest[1..] == ops[i + 1..];
      ghost var q := r.Ahead().payload;
      AllowedFirst(rest, q, r.buffer.Length);
      var item := RunOne(r, ops[i]);
      ConcatAssoc(items, [item.value], Slices(ops[i + 1..], r.Ahead().payload, r.buffer.Length));
      items := items + [item.value];
      i := i + 1;
    }
    assert ops[i..] == [] && items + [] == items;
    return Ok(items);
  }

  lemma AllowedFirst(ops: seq<Op>, p: seq<byte>, bufferLen: nat)
    requires ops != [] && Allowed(ops, p, bufferLen)
    ensures Allowed([ops[0]], p, bufferLen)
  {
    assert [ops[0]][1..] == [];
  }

  /** From one end to the other: a payload of any length, framed as the writer does it, under any compression,
      in any chunks, is read back by any reads that stay inside it. */
  method ReadFramed(buffer: array<byte>, alg: Algorithm, codec: Codec, raw: seq<byte>,
                    ghost payload: seq<byte>, ghost id: int, ghost rest: seq<byte>, ops: seq<Op>)
    returns (items: seq<Item>, r: R.Reader)
    requires 32 <= buffer.Length <= MAX && Allowed(ops, payload, buffer.Length)
    requires (if alg == Plain then raw else Unpack(codec, raw, 0).data) == Frames(payload, id) + rest
    modifies buffer
    ensures items == Slices(ops, payload, buffer.Length)
    ensures r.buffer == buffer && fresh(r) && r.Valid()
    ensures r.Ahead() == View(Leftover(ops, payload, buffer.Length), true, rest, Low8(id + Count(|payload|) - 1))
  {
    hide Look, Front, Unpack, Frames, Slices, Leftover, Allowed;
    r := new R.Reader(buffer, alg, codec, raw);
    BeginPacket(r, payload, id, rest);
    var res := RunReads(r, ops);
    items := res.value;
  }

  /** The header of the next packet is taken, from the window or from the connection. */
  method BeginPacket(r: R.Reader, ghost payload: seq<byte>, ghost id: int, ghost rest: seq<byte>)
    requires r.Valid() && r.Stream() == Frames(payload, id) + rest
    modifies r, r.buffer
    ensures r.Valid() && r.Ahead() == View(payload, true, rest, Low8(id + Count(|payload|) - 1))
  {
    hide Look, Front, Frames;
    SeenWhole(r.Stream(), payload, id, rest);
    var ok := r.ReadPacketHeaderSync();
    if !ok {
      var header := r.ReadPacketHeaderAsync();
    }
  }

  lemma SeenWhole(s: seq<byte>, payload: seq<byte>, id: int, rest: seq<byte>)
    requires s == Frames(payload, id) + rest
    ensures |s| >= HEADER
    ensures Look(NextLen(s, 0), NextLen(s, 0), s[HEADER..], s[3]) ==
      View(payload, true, rest, Low8(id + Count(|payload|) - 1))
  {
    FramesReadBack(payload, id, rest);
  }

  // ----- The compressed stream -----

  /** What the writer packs is unpacked as it was: the data, a clean end, and the number it leaves. */
  lemma PackedReadsBack(codec: Codec, alg: Algorithm, data: seq<byte>, starts: seq<nat>, id: byte, before: byte)
    requires Lawful(codec, alg) && Increasing(starts, 0, |data|) && Tiles(Layout(starts, 0, |data|, id), 0, |data|)
    ensures Unpack(codec, Packed(codec, data, Layout(starts, 0, |data|, id), 0), before)
         == Carried(data, true, IdAfter(Layout(starts, 0, |data|, id), before))
  {
    var ps := Layout(starts, 0, |data|, id);
    UnpackPacked(codec, alg, data, ps, 0, [], before);
    assert Packed(codec, data, ps, 0) + [] == Packed(codec, data, ps, 0);
    assert data[0..] + [] == data;
  }

  /** Reads to the end of the connection, with any view sizes. */
  method ReadToEnd(r: R.Reader, sizes: seq<nat>) returns (data: seq<byte>, clean: bool)
    requires r.Valid() && forall i :: 0 <= i < |sizes| ==> sizes[i] > 0
    modifies r
    ensures data == old(r.Pending()).data && clean == old(r.Pending()).clean
    ensures clean ==> r.Valid() && r.Pending() == old(r.Pending()).(data := [])
    ensures clean ==> r.incoming == [] && r.compressedSeqId == old(r.Pending()).id
  {
    hide Unpack;
    data := [];
    var i := 0;
    ghost var all := r.Pending().data;
    while true
      invariant r.Valid() && data + r.Pending().data == all
        && r.Pending() == old(r.Pending()).(data := r.Pending().data)
      decreases |r.Pending().data|
    {
      var size := if i < |sizes| then sizes[i] else 1;
      i := i + 1;
      var view := new byte[size];
      ghost var before := r.Pending().data;
      var n := r.ReadFromConn(view, 0, size);
      if n.Err? {
        return data, false;
      }
      if n.value == 0 {
        return data, true;
      }
      ConcatAssoc(data, view[0..n.value], before[n.value..]);
      assert view[0..n.value] + before[n.value..] == before;
      data := data + view[0..n.value];
    }
  }

  /**
   The compressed framing round trip: the reader gets exactly the data, then the end, and the same number as the
   writer.
   */
  method CompressedRoundTrip(w: W.Writer, view: array<byte>, off: nat, end: nat, starts: seq<nat>,
      window: array<byte>, sizes: seq<nat>)
    returns (data: seq<byte>, clean: bool, id: byte)
    requires w.WireOk() && w.alg != Plain && off + end <= view.Length && Increasing(starts, 0, end)
    requires 32 <= window.Length <= MAX && forall i :: 0 <= i < |sizes| ==> sizes[i] > 0
    modifies w, w.buffer
    ensures data == old(view[off..off + end]) && clean
    ensures end > 0 ==> id == w.compressedSeqId
  {
    hide Unpack, Packed, Tiles, Layout, Lawful, Front;
    ghost var sentData, id0 := view[off..off + end], w.compressedSeqId;
    var out, from, to := w.ToCompressedPackets(view, off, end, starts);
    LayoutNonEmpty(starts, end, id0);
    PackedReadsBack(w.codec, w.alg, sentData, starts, id0, 0);
    var r := new R.Reader(window, w.alg, w.codec, out[from..to]);
    data, clean := ReadToEnd(r, sizes);
    id := r.compressedSeqId;
  }

  lemma LayoutNonEmpty(starts: seq<nat>, end: nat, id: byte)
    requires Increasing(starts, 0, end)
    ensures end > 0 ==> Layout(starts, 0, end, id) != []
  {
    if end > 0 && starts != [] && starts[0] == 0 {
      assert Layout(starts, 0, end, id) == Layout(starts[1..], 0, end, 0);
    }
  }

  // ----- From the writer to the reader -----

  /** What the writer has sent in one packet is read at the other end. */
  method Received(w: W.Writer, window: array<byte>, ghost payload: seq<byte>, ops: seq<Op>) returns (items: seq<Item>)
    requires w.WireOk() && w.sent == Frames(payload, 0)
    requires 32 <= window.Length <= MAX && Allowed(ops, payload, window.Length)
    modifies window
    ensures items == Slices(ops, payload, window.Length)
  {
    hide Look, Front, Unpack, Frames, Slices, Leftover, Allowed, Lawful;
    assert Frames(payload, 0) + [] == Frames(payload, 0);
    var r;
    items, r := ReadFramed(window, w.alg, w.codec, w.wire, payload, 0, [], ops);
  }

  /** A new writer with an open packet that begins with `prefix`. */
  method Opened(buffer: array<byte>, alg: Algorithm, codec: Codec, prefix: seq<byte>) returns (w: W.Writer)
    requires 32 <= buffer.Length <= MAX && (alg != Plain ==> Lawful(codec, alg)) && HEADER + |prefix| <= buffer.Length
    modifies buffer
    ensures fresh(w) && w.Open() && w.buffer == buffer && w.alg == alg && w.codec == codec
    ensures w.bufferEnd == HEADER + |prefix| && w.Current() == prefix && w.Committed() == [] && w.sequenceId == 0
  {
    hide Unpack, Frames, Lawful;
    w := new W.Writer(buffer, alg, codec);
    w.StartWritingNewPacket(true);
    w.WriteBytes(prefix);
    assert w.Committed() == [] && w.Current() == prefix;
  }

  lemma OnlyPacket(stream: seq<byte>)
    ensures [] + stream == stream
  {
  }

  /**
   A command with a string of any length goes from the writer to the reader: it is cut to packets, and compressed if so
   agreed, and any reads that stay inside the payload get its slices.
   */
  method StringReceived(buffer: array<byte>, window: array<byte>, alg: Algorithm, codec: Codec, prefix: seq<byte>,
      str: seq<W.Utf8.CodeUnit>, canWait: bool, ops: seq<Op>)
    returns (items: seq<Item>)
    requires 32 <= buffer.Length <= MAX && (alg != Plain ==> Lawful(codec, alg)) && HEADER + |prefix| <= buffer.Length
    requires 32 <= window.Length <= MAX && Allowed(ops, prefix + W.Utf8.Encode(str), window.Length)
    modifies buffer, window
    ensures items == Slices(ops, prefix + W.Utf8.Encode(str), window.Length)
  {
    hide Unpack, Frames, Lawful, Slices, Allowed, W.Utf8.Encode;
    var w := Opened(buffer, alg, codec, prefix);
    OnlyPacket(Frames(prefix + W.Utf8.Encode(str), 0));
    var waiting := w.SendString(str, canWait);
    if waiting {
      w.Send();
    }
    items := Received(w, window, prefix + W.Utf8.Encode(str), ops);
  }

  /** The same with bytes. */
  method BytesReceived(buffer: array<byte>, window: array<byte>, alg: Algorithm, codec: Codec, prefix: seq<byte>,
      data: array<byte>, off: nat, len: nat, ops: seq<Op>)
    returns (items: seq<Item>)
    requires 32 <= buffer.Length <= MAX && (alg != Plain ==> Lawful(codec, alg)) && HEADER + |prefix| <= buffer.Length
    requires data != buffer && off + len <= data.Length
    requires 32 <= window.Length <= MAX && Allowed(ops, prefix + data[off..off + len], window.Length)
    modifies buffer, window
    ensures items == Slices(ops, prefix + old(data[off..off + len]), window.Length)
  {
    hide Unpack, Frames, Lawful, Slices, Allowed;
    ghost var bytes := data[off..off + len];
    var w := Opened(buffer, alg, codec, prefix);
    OnlyPacket(Frames(prefix + bytes, 0));
    var _ := w.SendBytes(data, off, len, false);
    items := Received(w, window, prefix + bytes, ops);
  }

  // ----- What waits in the buffer -----

  /**
   Long data and then another packet: nothing is lost if and only if no tail was left in the buffer without a header.
   */
  method BytesThenPacket(w: W.Writer, data: array<byte>, off: nat, len: nat, canWait: bool)
    requires w.Open() && data != w.buffer && off + len <= data.Length
    modifies w, w.buffer
    ensures w.Valid()
    ensures w.Committed() == old(w.FinishedWith(data[off..off + len])) <==>
      !w.DefersTail(canWait, old(w.bufferStart), old(w.bufferEnd), len)
  {
    hide Frames, Unpack, Lawful;
    ghost var goal, tail := w.FinishedWith(data[off..off + len]), data[off..off + len];
    var waiting := w.SendBytes(data, off, len, canWait);
    ghost var before := w.sent;
    w.StartWritingNewPacket(true);
    if w.DefersTail(canWait, old(w.bufferStart), old(w.bufferEnd), len) {
      assert |goal| == |before| + |tail| && |tail| > 0;
      assert w.Committed() == before + w.buffer[..0];
    } else if !waiting {
      assert w.Committed() == before + w.buffer[..0] == before;
    }
  }

  /** The same with a string never loses anything. */
  method StringThenPacket(w: W.Writer, str: seq<W.Utf8.CodeUnit>, canWait: bool)
    requires w.Open()
    modifies w, w.buffer
    ensures w.Valid() && w.Committed() == old(w.FinishedWith(W.Utf8.Encode(str)))
  {
    hide Frames, Unpack, Lawful;
    var waiting := w.SendString(str, canWait);
    ghost var before := w.sent;
    w.StartWritingNewPacket(true);
    if !waiting {
      assert w.Committed() == before + w.buffer[..0] == before;
    }
  }

  /**
   A packet that is begun, discarded, and begun again: the packet before it stays in the stream if and only if it was
   already sent.
   */
  method DiscardThenPacket(w: W.Writer)
    requires w.Valid() && w.bufferEnd + 2 * HEADER <= w.buffer.Length && (w.bufferStart != w.bufferEnd ==> w.Open())
    modifies w, w.buffer
    ensures w.Valid()
    ensures w.Committed() == (if old(w.bufferStart) == old(w.bufferEnd) then old(w.sent) else old(w.FinishedWith([])))
       <==> old(w.bufferStart) == old(w.bufferEnd)
  {
    hide Unpack, Lawful, Frames, Header, Layout, Tiles, CommandsApart, Packed, IdAfter, Increasing;
    ghost var wasEmpty, wasSent := w.bufferStart == w.bufferEnd, w.sent;
    w.StartWritingNewPacket(true);
    ghost var committed := w.Committed();
    assert !wasEmpty ==> |committed| > |wasSent|;
    w.DiscardPacket();
    w.StartWritingNewPacket(true);
    assert w.Committed() == w.sent + w.buffer[..0] == w.sent;
  }
}
