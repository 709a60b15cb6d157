/**
 The compressed protocol: the layout of compressed packets over the ordinary packet stream,
 the compression bounds, and the stream read back.
 */
module Compression {
  import opened Bytes
  import opened Results

  const HEADER_LEN: nat := 7
  const MAX_PAYLOAD: nat := 0xFFFFFF
  const MIN_COMPRESS: nat := 50

  datatype Algorithm = Plain | Zlib | Zstd

  /** The zlib and zstd libraries: an encoder, and a decoder that can refuse its input. */
  datatype Codec = Codec(compress: seq<byte> -> seq<byte>, decompress: seq<byte> -> Option<seq<byte>>)

  // ----- Bounds -----

  function DeflateBound(len: nat): nat {
    len + len / 0x1000 + len / 0x4000 + len / 0x200_0000 + 13
  }

  function ZstdBound(len: nat): nat {
    len + len / 0x100 + if len < 0x2_0000 then (0x2_0000 - len) / 0x800 else 0
  }

  function Bound(alg: Algorithm, len: nat): nat {
    if alg == Zstd then ZstdBound(len) else DeflateBound(len)
  }

  /** The codec inverts its own output and keeps to the bound of its algorithm. */
  ghost predicate Lawful(codec: Codec, alg: Algorithm) {
    forall x: seq<byte> :: codec.decompress(codec.compress(x)) == Some(x) && |codec.compress(x)| <= Bound(alg, |x|)
  }

  /** The room that `len` bytes in at most `parts` compressed packets can take. */
  function Room(alg: Algorithm, len: nat, parts: nat): nat {
    if alg == Zstd then len + len / 0x100 + parts * (HEADER_LEN + 64 + 1)
    else len + len / 0x1000 + len / 0x4000 + len / 0x200_0000 + parts * (HEADER_LEN + 13 + 1)
  }

  function WorstLen(alg: Algorithm, end: nat, nParts: nat): (n: nat)
    ensures n >= Room(alg, end, nParts)
  {
    if alg == Zstd then ZstdBound(end) + nParts * (HEADER_LEN + 64 + 1)
    else DeflateBound(end) + nParts * (HEADER_LEN + 13 + 1)
  }

  /** Cutting one part off always leaves enough room for it and for the rest. */
  lemma RoomSplits(alg: Algorithm, part: nat, rest: nat, parts: nat)
    requires parts >= 1
    ensures Room(alg, part + rest, parts) >= HEADER_LEN + Bound(alg, part) + 1 + Room(alg, rest, parts - 1)
  {
    DivSuperadditive(part, rest, 0x100);
    DivSuperadditive(part, rest, 0x1000);
    DivSuperadditive(part, rest, 0x4000);
    DivSuperadditive(part, rest, 0x200_0000);
  }

  lemma DivSuperadditive(a: nat, b: nat, m: nat)
    requires m >= 1
    ensures a / m + b / m <= (a + b) / m
  {
    var q, r := a / m + b / m, a % m + b % m;
    assert a == m * (a / m) + a % m && b == m * (b / m) + b % m;
    assert a + b == m * q + r by { assert m * (a / m + b / m) == m * (a / m) + m * (b / m); }
    if r < m {
      ModUnique(a + b, m, q, r);
    } else {
      assert m * (q + 1) == m * q + m;
      ModUnique(a + b, m, q + 1, r - m);
    }
  }

  lemma RoomMonotone(alg: Algorithm, len: nat, parts: nat, parts': nat)
    requires parts <= parts'
    ensures Room(alg, len, parts) <= Room(alg, len, parts')
  {
  }

  // ----- Layout -----

  /** One compressed packet: its number, and the part `[start..end)` of the data that it carries. */
  datatype CPacket = CPacket(id: byte, start: nat, end: nat)

  function NextId(id: byte): byte {
    (id + 1) % 0x100
  }

  predicate Increasing(starts: seq<nat>, from: nat, end: nat) {
    && (forall i :: 0 <= i < |starts| ==> from <= starts[i] < end)
    && (forall i, j :: 0 <= i < j < |starts| ==> starts[i] < starts[j])
  }

  /** The packets of `[from..end)`, where each offset in `starts` begins a command. */
  function Layout(starts: seq<nat>, from: nat, end: nat, id: byte): (ps: seq<CPacket>)
    decreases if from < end then end - from else 0, |starts|
  {
    if from >= end then []
    else if starts != [] && starts[0] <= from then Layout(starts[1..], from, end, 0)
    else
      var cut := Cut(from, if starts == [] then end else starts[0]);
      [CPacket(id, from, cut)] + Layout(starts, cut, end, NextId(id))
  }

  /** Where the packet that begins at `from` ends, when it must not go beyond `to`. */
  function Cut(from: nat, to: nat): nat {
    if from + MAX_PAYLOAD < to then from + MAX_PAYLOAD else to
  }

  /** The number that the next compressed packet will have. */
  function IdAfter(ps: seq<CPacket>, id: byte): byte {
    if ps == [] then id else NextId(ps[|ps| - 1].id)
  }

  /** The packets cover `[from..end)` one after another, and each can be sent. */
  predicate Tiles(ps: seq<CPacket>, from: nat, end: nat)
    decreases |ps|
  {
    if ps == [] then from == end
    else
      && ps[0].start == from && from < ps[0].end <= from + MAX_PAYLOAD && ps[0].end <= end
      && Tiles(ps[1..], ps[0].end, end)
  }

  /**
   Commands and packets, in order: a command begins its own packet, numbered 0; no packet holds bytes of two commands;
   every other packet is numbered one more than the packet before it (the first one, `id`); and no command is left over.
   */
  predicate CommandsApart(ps: seq<CPacket>, starts: seq<nat>, id: byte)
    decreases |ps|
  {
    if ps == [] then starts == []
    else if starts != [] && starts[0] == ps[0].start then
      ps[0].id == 0 && CommandsApart(ps[1..], starts[1..], 1) && (|starts| > 1 ==> ps[0].end <= starts[1])
    else
      ps[0].id == id && CommandsApart(ps[1..], starts, NextId(id)) && (starts != [] ==> ps[0].end <= starts[0])
  }

  lemma {:induction false} LayoutTiles(starts: seq<nat>, from: nat, end: nat, id: byte)
    requires from <= end && Increasing(starts, from, end)
    ensures Tiles(Layout(starts, from, end, id), from, end)
    decreases end - from, |starts|
  {
    if from < end {
      if starts != [] && starts[0] == from {
        LayoutTiles(starts[1..], from, end, 0);
      } else {
        LayoutTiles(starts, Cut(from, if starts == [] then end else starts[0]), end, NextId(id));
      }
    }
  }

  /**
   The layout the server needs: no two commands share a compressed packet, and the numbering restarts exactly at
   commands.
   */
  lemma {:induction false} LayoutKeepsCommandsApart(starts: seq<nat>, from: nat, end: nat, id: byte)
    requires from <= end && Increasing(starts, from, end)
    ensures CommandsApart(Layout(starts, from, end, id), starts, id)
    decreases end - from
  {
    if from < end {
      var cut := Cut(from, if starts == [] then end else starts[0]);
      if starts != [] && starts[0] == from {
        var tail := starts[1..];
        assert forall i :: 0 <= i < |tail| ==> from < tail[i] && tail[i] == starts[i + 1];
        var cut' := Cut(from, if tail == [] then end else tail[0]);
        LayoutKeepsCommandsApart(tail, cut', end, 1);
        assert Layout(starts, from, end, id) == Layout(tail, from, end, 0);
        assert Layout(tail, from, end, 0) == [CPacket(0, from, cut')] + Layout(tail, cut', end, 1);
      } else {
        LayoutKeepsCommandsApart(starts, cut, end, NextId(id));
      }
    }
  }

  // ----- Bytes -----

  /** One compressed packet: sent compressed if that makes it shorter, verbatim otherwise. */
  function PacketBytes(codec: Codec, id: byte, part: seq<byte>): seq<byte> {
    var c := codec.compress(part);
    if |part| >= MIN_COMPRESS && |c| < |part| then LE(|c|, 3) + [id] + LE(|part|, 3) + c
    else LE(|part|, 3) + [id] + LE(0, 3) + part
  }

  function Packed(codec: Codec, data: seq<byte>, ps: seq<CPacket>, from: nat): seq<byte>
    requires Tiles(ps, from, |data|)
    decreases |ps|
  {
    if ps == [] then []
    else PacketBytes(codec, ps[0].id, data[from..ps[0].end]) + Packed(codec, data, ps[1..], ps[0].end)
  }

  /** What a stream of compressed packets carries: as much as can be read, whether it ends at a packet boundary,
      and the number that follows the last header. */
  datatype Carried = Carried(data: seq<byte>, clean: bool, id: byte)

  function Then(data: seq<byte>, rest: Carried): Carried {
    rest.(data := data + rest.data)
  }

  function Unpack(codec: Codec, raw: seq<byte>, id: byte): Carried
    decreases |raw|
  {
    if raw == [] then Carried([], true, id)
    else if |raw| < HEADER_LEN then Carried([], false, id)
    else
      var len, id', whole, body := FromLE(raw[..3]), NextId(raw[3]), FromLE(raw[4..7]), raw[HEADER_LEN..];
      if whole == 0 then
        if |body| < len then Carried(body, false, id')
        else Then(body[..len], Unpack(codec, body[len..], id'))
      else if |body| < len then Carried([], false, id')
      else match codec.decompress(body[..len])
        case None => Carried([], false, id')
        case Some(data) =>
          if |data| != whole then Carried([], false, id')
          else Then(data, Unpack(codec, body[len..], id'))
  }

  lemma UnpackPacket(codec: Codec, alg: Algorithm, id: byte, part: seq<byte>, rest: seq<byte>, before: byte)
    requires Lawful(codec, alg) && 0 < |part| <= MAX_PAYLOAD
    ensures Unpack(codec, PacketBytes(codec, id, part) + rest, before) == Then(part, Unpack(codec, rest, NextId(id)))
  {
    var c := codec.compress(part);
    var raw := PacketBytes(codec, id, part) + rest;
    var packed := |part| >= MIN_COMPRESS && |c| < |part|;
    var len, whole := if packed then |c| else |part|, if packed then |part| else 0;
    var body := (if packed then c else part) + rest;
    Pow256Values();
    LERoundTrip(len, 3);
    LERoundTrip(whole, 3);
    assert raw == LE(len, 3) + [id] + LE(whole, 3) + body;
    assert raw[..3] == LE(len, 3) && raw[3] == id && raw[4..7] == LE(whole, 3) && raw[HEADER_LEN..] == body;
    assert body[len..] == rest && body[..len] == if packed then c else part;
    assert codec.decompress(c) == Some(part);
  }

  /** Everything that was packed is read back, the stream ends cleanly, and the number continues. */
  lemma {:induction false} UnpackPacked(codec: Codec, alg: Algorithm, data: seq<byte>, ps: seq<CPacket>, from: nat,
      rest: seq<byte>, id: byte)
    requires Lawful(codec, alg) && from <= |data| && Tiles(ps, from, |data|)
    ensures Unpack(codec, Packed(codec, data, ps, from) + rest, id) ==
      Then(data[from..], Unpack(codec, rest, IdAfter(ps, id)))
    decreases |ps|
  {
    if ps == [] {
      assert Packed(codec, data, ps, from) + rest == rest;
      assert data[from..] == [];
    } else {
      var p, tail := ps[0], ps[1..];
      var part, packedTail := data[from..p.end], Packed(codec, data, tail, p.end);
      UnpackPacked(codec, alg, data, tail, p.end, rest, NextId(p.id));
      var last := Unpack(codec, rest, IdAfter(ps, id));
      assert IdAfter(ps, id) == IdAfter(tail, NextId(p.id));
      ConcatAssoc(PacketBytes(codec, p.id, part), packedTail, rest);
      UnpackPacket(codec, alg, p.id, part, packedTail + rest, id);
      ThenThen(part, data[p.end..], last);
      assert part + data[p.end..] == data[from..];
    }
  }

  lemma ThenThen(a: seq<byte>, b: seq<byte>, c: Carried)
    ensures Then(a, Then(b, c)) == Then(a + b, c)
  {
    ConcatAssoc(a, b, c.data);
  }

  /** Clean streams join. */
  lemma {:induction false} UnpackJoins(codec: Codec, a: seq<byte>, b: seq<byte>, id: byte)
    requires Unpack(codec, a, id).clean
    ensures Unpack(codec, a + b, id) == Then(Unpack(codec, a, id).data, Unpack(codec, b, Unpack(codec, a, id).id))
    decreases |a|
  {
    if a == [] {
      assert a + b == b;
    } else {
      var len, id', whole, body := FromLE(a[..3]), NextId(a[3]), FromLE(a[4..7]), a[HEADER_LEN..];
      var ab := a + b;
      assert ab[..3] == a[..3] && ab[3] == a[3] && ab[4..7] == a[4..7] && ab[HEADER_LEN..] == body + b;
      assert (body + b)[..len] == body[..len] && (body + b)[len..] == body[len..] + b;
      UnpackJoins(codec, body[len..], b, id');
      var data := if whole == 0 then body[..len] else codec.decompress(body[..len]).value;
      var r := Unpack(codec, body[len..], id');
      ConcatAssoc(data, r.data, Unpack(codec, b, r.id).data);
    }
  }

  // ----- Steps of the reader -----

  /** What is still to be delivered: an inflated payload, or the rest of a verbatim one, before the stream. */
  function Front(codec: Codec, inflated: seq<byte>, verbatim: nat, raw: seq<byte>, id: byte): Carried {
    if inflated != [] then Then(inflated, Unpack(codec, raw, id))
    else if |raw| < verbatim then Carried(raw, false, id)
    else Then(raw[..verbatim], Unpack(codec, raw[verbatim..], id))
  }

  lemma FrontInflated(codec: Codec, inflated: seq<byte>, raw: seq<byte>, id: byte, n: nat)
    requires inflated != [] && n <= |inflated|
    ensures var f := Front(codec, inflated, 0, raw, id);
      && n <= |f.data| && f.data[..n] == inflated[..n]
      && Front(codec, inflated[n..], 0, raw, id) == f.(data := f.data[n..])
  {
    hide Unpack;
    var f := Front(codec, inflated, 0, raw, id);
    assert raw[0..] == raw;
    assert f.data[..n] == inflated[..n];
    assert f.data[n..] == inflated[n..] + Unpack(codec, raw, id).data;
  }

  lemma FrontVerbatim(codec: Codec, verbatim: nat, raw: seq<byte>, id: byte, n: nat)
    requires n <= verbatim && n <= |raw|
    ensures var f := Front(codec, [], verbatim, raw, id);
      && n <= |f.data| && f.data[..n] == raw[..n]
      && Front(codec, [], verbatim - n, raw[n..], id) == f.(data := f.data[n..])
  {
    hide Unpack;
    var f := Front(codec, [], verbatim, raw, id);
    if |raw| >= verbatim {
      assert raw[n..][verbatim - n..] == raw[verbatim..];
      assert f.data[..n] == raw[..n];
      assert f.data[n..] == raw[n..][..verbatim - n] + Unpack(codec, raw[verbatim..], id).data;
    }
  }

  /** At a packet boundary: the header tells how the payload goes on. */
  lemma FrontHeader(codec: Codec, raw: seq<byte>, id: byte)
    requires |raw| >= HEADER_LEN
    ensures var f := Front(codec, [], 0, raw, id);
      var len, id', whole, body := FromLE(raw[..3]), NextId(raw[3]), FromLE(raw[4..7]), raw[HEADER_LEN..];
      if whole == 0 then f == Front(codec, [], len, body, id')
      else if |body| < len || codec.decompress(body[..len]).None? || |codec.decompress(body[..len]).value| != whole
        then f.data == [] && !f.clean
      else f == Front(codec, codec.decompress(body[..len]).value, 0, body[len..], id')
  {
    assert raw[0..] == raw && raw[..0] == [];
  }

  lemma FrontEmpty(codec: Codec, verbatim: nat, raw: seq<byte>, id: byte)
    requires |raw| < HEADER_LEN
    ensures var f := Front(codec, [], 0, raw, id); f.data == [] && f.clean == (raw == []) && (raw == [] ==> f.id == id)
    ensures verbatim > 0 && raw == [] ==>
      !Front(codec, [], verbatim, raw, id).clean && Front(codec, [], verbatim, raw, id).data == []
  {
    assert raw[0..] == raw && raw[..0] == [];
  }
}
