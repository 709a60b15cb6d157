/**
 The receiving half of a connection: a small window slides over a stream that arrives in arbitrary chunks;
 packet headers are taken out as they come, and in the compressed protocol the compressed packets before them.
 */
module Reader {
  import opened Bytes
  import opened Results
  import opened Packets
  import opened Compression
  import opened ByteArrays
  import Lenenc

  class Reader {
    const buffer: array<byte>
    const alg: Algorithm
    const codec: Codec
    var bufferStart: nat
    var bufferEnd: nat
    var sequenceId: int
    var payloadLength: nat
    var packetOffset: int // can be negative, after two packets were joined
    var compressedSeqId: byte
    var inflated: seq<byte> // decompressed, and not handed out yet
    var verbatimRemaining: nat // bytes to come that are not compressed
    var incoming: seq<byte> // the bytes that the connection will deliver, before it ends

    ghost predicate Valid()
      reads this
    {
      && 32 <= buffer.Length <= MAX && bufferStart <= bufferEnd <= buffer.Length
      && packetOffset <= payloadLength <= MAX
      && (inflated == [] || verbatimRemaining == 0)
      && (alg == Plain ==> inflated == [] && verbatimRemaining == 0)
    }

    /** What is still to come from the connection, with the compressed packets undone. */
    ghost function Pending(): Carried
      reads this
    {
      if alg == Plain then Carried(incoming, true, compressedSeqId)
      else Front(codec, inflated, verbatimRemaining, incoming, compressedSeqId)
    }

    /** The packet stream before the reader: the window, and what is still to come. */
    ghost function Stream(): seq<byte>
      requires Valid()
      reads this, buffer
    {
      buffer[bufferStart..bufferEnd] + Pending().data
    }

    /** The logical payload before the reader, and what follows it. */
    ghost function Ahead(): View
      requires Valid()
      reads this, buffer
    {
      Look(payloadLength, payloadLength - packetOffset, Stream(), Low8(sequenceId - 1))
    }

    constructor (buffer: array<byte>, alg: Algorithm, codec: Codec, incoming: seq<byte>)
      requires 32 <= buffer.Length <= MAX
      ensures Valid() && this.buffer == buffer && this.alg == alg && this.codec == codec
      ensures bufferStart == bufferEnd == 0 && sequenceId == payloadLength == packetOffset == 0 && compressedSeqId == 0
      ensures Pending() == if alg == Plain then Carried(incoming, true, 0) else Unpack(codec, incoming, 0)
      ensures Stream() == Pending().data
    {
      this.buffer, this.alg, this.codec, this.incoming := buffer, alg, codec, incoming;
      bufferStart, bufferEnd, sequenceId, payloadLength, packetOffset := 0, 0, 0, 0, 0;
      compressedSeqId, inflated, verbatimRemaining := 0, [], 0;
      new;
      assert incoming[0..] == incoming;
    }

    /** The place in the packet does not change, only the window does. */
    twostate predicate Frozen()
      reads this
    {
      payloadLength == old(payloadLength) && packetOffset == old(packetOffset) && sequenceId == old(sequenceId)
    }

    // ----- Receiving -----

    /** One read from the connection to `dest[at..at+room)`: some bytes, as many as it likes, or the end. */
    method ReadRaw(dest: array<byte>, at: nat, room: nat) returns (n: nat)
      requires at + room <= dest.Length && room > 0
      modifies this`incoming, dest
      ensures n <= room && n <= |old(incoming)| && incoming == old(incoming)[n..]
      ensures n == 0 <==> old(incoming) == []
      ensures dest[..at] == old(dest[..at]) && dest[at..at + n] == old(incoming)[..n]
      ensures dest[at + n..] == old(dest[at + n..])
    {
      n := 0;
      if incoming != [] {
        n :| 1 <= n <= room && n <= |incoming|;
      }
      forall i | 0 <= i < n {
        dest[at + i] := incoming[i];
      }
      incoming := incoming[n..];
    }

    /** Reads exactly `len` bytes; `None` if `canEof`, and the connection ended before the first one. */
    method RecvFrameExact(len: nat, canEof: bool) returns (r: Result<Option<seq<byte>>>)
      modifies this`incoming
      ensures r.Ok? && r.value.Some? ==>
        len <= |old(incoming)| && r.value.value == old(incoming)[..len] && incoming == old(incoming)[len..]
      ensures r.Ok? && r.value.None? ==> canEof && len > 0 && old(incoming) == [] && incoming == []
      ensures r.Err? ==> |old(incoming)| < len && !(canEof && old(incoming) == [])
    {
      var frame := new byte[len];
      var pos := 0;
      while pos < len
        invariant 0 <= pos <= len && pos <= |old(incoming)|
        invariant frame[..pos] == old(incoming)[..pos] && incoming == old(incoming)[pos..]
        decreases len - pos
      {
        ghost var was := frame[..pos];
        var n := ReadRaw(frame, pos, len - pos);
        if n == 0 {
          return if canEof && pos == 0 then Ok(None) else Err(Disconnected);
        }
        assert frame[..pos + n] == was + frame[pos..pos + n];
        assert old(incoming)[..pos + n] == old(incoming)[..pos] + old(incoming)[pos..][..n];
        pos := pos + n;
      }
      return Ok(Some(frame[..len]));
    }

    /** Reads bytes of the packet stream to `dest[at..at+room)`; `Ok(0)` is the end of the connection. */
    method ReadFromConn(dest: array<byte>, at: nat, room: nat) returns (r: Result<nat>)
      requires Valid() && at + room <= dest.Length && room > 0
      modifies this`incoming, this`inflated, this`verbatimRemaining, this`compressedSeqId, dest
      ensures Valid()
      ensures r.Ok? ==>
        && r.value <= room && r.value <= |old(Pending()).data|
        && dest[at..at + r.value] == old(Pending()).data[..r.value]
        && Pending() == old(Pending()).(data := old(Pending()).data[r.value..])
      ensures r.Ok? ==> (r.value == 0 <==> old(Pending()).data == []) && (r.value == 0 ==> old(Pending()).clean)
      ensures r == Ok(0) ==> incoming == [] && Pending().id == compressedSeqId
      ensures r.Err? ==> old(Pending()).data == [] && !old(Pending()).clean
      ensures dest[..at] == old(dest[..at])
    {
      hide Unpack, Front;
      if alg == Plain {
        var n := ReadRaw(dest, at, room);
        return Ok(n);
      }
      while true
        invariant Valid() && Pending() == old(Pending())
        invariant dest[..] == old(dest[..])
        decreases |incoming|
      {
        if inflated != [] {
          var n := if |inflated| < room then |inflated| else room;
          FrontInflated(codec, inflated, incoming, compressedSeqId, n);
          forall i | 0 <= i < n {
            dest[at + i] := inflated[i];
          }
          inflated := inflated[n..];
          return Ok(n);
        }
        if verbatimRemaining > 0 {
          ghost var was := incoming;
          var n := ReadRaw(dest, at, if verbatimRemaining < room then verbatimRemaining else room);
          FrontVerbatim(codec, verbatimRemaining, was, compressedSeqId, n);
          if n == 0 {
            FrontEmpty(codec, verbatimRemaining, was, compressedSeqId);
            return Err(Disconnected);
          }
          verbatimRemaining := verbatimRemaining - n;
          return Ok(n);
        }
        // the next compressed packet header
        ghost var was, id := incoming, compressedSeqId;
        if |was| < HEADER_LEN {
          FrontEmpty(codec, 0, was, id);
        } else {
          FrontHeader(codec, was, id);
        }
        var header :- RecvFrameExact(HEADER_LEN, true);
        if header.None? {
          return Ok(0);
        }
        var frame := header.value;
        assert frame[..3] == was[..3] && frame[4..7] == was[4..7];
        var payloadLen := FromLE(frame[..3]);
        compressedSeqId := NextId(frame[3]);
        var uncompressedLen := FromLE(frame[4..7]);
        if uncompressedLen == 0 {
          verbatimRemaining := payloadLen; // can be passed through without buffering it whole
        } else {
          var compressed :- RecvFrameExact(payloadLen, false);
          var data := codec.decompress(compressed.value);
          if data.None? || |data.value| != uncompressedLen {
            return Err(Corrupted);
          }
          inflated := data.value;
        }
      }
    }

    /** Reads more bytes to the window, where it ends. `Ok(0)` is the end of the connection. */
    method Refill() returns (r: Result<nat>)
      requires Valid() && bufferEnd < buffer.Length
      modifies this, buffer
      ensures Valid() && Frozen() && bufferStart == old(bufferStart)
      ensures r.Ok? ==> bufferEnd == old(bufferEnd) + r.value && Stream() == old(Stream())
      ensures r.Err? || r.value == 0 ==> |old(Stream())| == old(bufferEnd) - bufferStart
    {
      hide Front;
      ghost var window, pending := buffer[bufferStart..bufferEnd], Pending().data;
      r := ReadFromConn(buffer, bufferEnd, buffer.Length - bufferEnd);
      if r.Ok? {
        assert buffer[bufferStart..bufferEnd] == buffer[..bufferEnd][bufferStart..];
        assert window == old(buffer[..bufferEnd])[bufferStart..];
        ghost var chunk := buffer[bufferEnd..bufferEnd + r.value];
        assert pending == chunk + pending[r.value..];
        ConcatAssoc(window, chunk, pending[r.value..]);
        assert buffer[bufferStart..bufferEnd + r.value] == window + chunk;
        bufferEnd := bufferEnd + r.value;
      }
    }

    /** Moves the window to the beginning of the buffer. */
    method Compact()
      requires Valid()
      modifies this`bufferStart, this`bufferEnd, buffer
      ensures Valid() && Stream() == old(Stream())
      ensures bufferStart == 0 && bufferEnd == old(bufferEnd) - old(bufferStart)
    {
      CopyWithin(buffer, 0, bufferStart, bufferEnd - bufferStart);
      bufferEnd := bufferEnd - bufferStart;
      bufferStart := 0;
      assert buffer[bufferStart..bufferEnd] == old(buffer[bufferStart..bufferEnd]);
    }

    /**
     Makes at least `nBytes` available in the window; `Ok(false)` if the connection ended before the first of them.
     */
    method RecvAtLeast(nBytes: nat, canEof: bool) returns (r: Result<bool>)
      requires Valid() && nBytes <= buffer.Length
      modifies this, buffer
      ensures Valid() && Frozen()
      ensures r.Ok? ==> Stream() == old(Stream())
      ensures r.Ok? && r.value ==> bufferEnd - bufferStart >= nBytes
      ensures r.Ok? && !r.value ==> canEof && Stream() == []
      ensures r.Err? ==> |old(Stream())| < nBytes
      ensures |old(Stream())| >= nBytes ==> r == Ok(true)
    {
      hide Front;
      if bufferStart == bufferEnd {
        bufferStart := 0;
        bufferEnd := 0;
        assert buffer[0..0] == old(buffer[bufferStart..bufferEnd]);
      } else if bufferStart > buffer.Length - nBytes {
        Compact();
      }
      var to := bufferStart + nBytes;
      while bufferEnd < to
        invariant Valid() && Frozen() && Stream() == old(Stream()) && to == bufferStart + nBytes <= buffer.Length
        decreases buffer.Length - bufferEnd
      {
        var n :- Refill();
        if n == 0 {
          return if canEof && bufferEnd == bufferStart then Ok(false) else Err(Disconnected);
        }
      }
      return Ok(true);
    }

    // ----- Packet headers -----

    /** Takes a packet header from the window, if it is there. */
    method ReadPacketHeaderSync() returns (ok: bool)
      requires Valid()
      modifies this
      ensures Valid() && ok == (old(bufferEnd) - old(bufferStart) >= HEADER)
      ensures !ok ==> unchanged(this)
      ensures ok ==> HeaderTaken()
    {
      hide Front;
      if bufferEnd - bufferStart >= HEADER {
        TakeHeader();
        return true;
      }
      return false;
    }

    method ReadPacketHeaderAsync() returns (r: Result<bool>)
      requires Valid()
      modifies this, buffer
      ensures Valid()
      ensures r.Ok? ==> HeaderTaken()
      ensures r.Err? <==> |old(Stream())| < HEADER
    {
      hide Front;
      var _ :- RecvAtLeast(HEADER, false);
      TakeHeader();
      return Ok(true);
    }

    /** A header was taken from the stream: the reader stands at the beginning of the packet. */
    twostate predicate HeaderTaken()
      requires old(Valid()) && Valid()
      reads this, buffer
    {
      && |old(Stream())| >= HEADER
      && Stream() == old(Stream())[HEADER..]
      && payloadLength == NextLen(old(Stream()), 0) && packetOffset == 0
      && Low8(sequenceId - 1) == old(Stream())[3]
    }

    method TakeHeader()
      requires Valid() && bufferEnd - bufferStart >= HEADER
      modifies this
      ensures Valid() && HeaderTaken() && bufferStart == old(bufferStart) + HEADER && bufferEnd == old(bufferEnd)
    {
      hide Front;
      ghost var s := Stream();
      WindowSlice(0, HEADER);
      WindowDrop(HEADER);
      assert s[0..3] == s[0..HEADER][..3] && s[3] == s[0..HEADER][3];
      payloadLength, sequenceId := HeaderFields(buffer[bufferStart..bufferStart + HEADER]);
      bufferStart := bufferStart + HEADER;
      packetOffset := 0;
    }

    /** The fields of a header: `(header >> 24) + 1` is taken from a signed 32-bit integer. */
    static method HeaderFields(bytes: seq<byte>) returns (len: nat, nextId: int)
      requires |bytes| == HEADER
      ensures len == FromLE(bytes[..3]) <= MAX
      ensures Low8(nextId - 1) == bytes[3]
    {
      Pow256Values();
      FromLEUnroll(bytes);
      FromLEUnroll(bytes[..3]);
      var header := FromLE(bytes);
      len := header % 0x100_0000;
      var high: int := header / 0x100_0000;
      nextId := (if header >= 0x8000_0000 then high - 0x100 else high) + 1;
    }

    // ----- Reading the payload -----

    /** Exactly `n` bytes of the logical payload were consumed. */
    twostate predicate Took(n: nat)
      requires old(Valid()) && Valid()
      reads this, buffer
    {
      n <= |old(Ahead()).payload| && Ahead() == old(Ahead()).Drop(n)
    }

    /** The window is the beginning of the stream. */
    lemma WindowSlice(a: nat, b: nat)
      requires Valid() && a <= b <= bufferEnd - bufferStart
      ensures b <= |Stream()| && buffer[bufferStart + a..bufferStart + b] == Stream()[a..b]
    {
      hide Front;
      SliceSlice(buffer[..], bufferStart, bufferEnd, a, b);
      InWindow(buffer[bufferStart..bufferEnd], Pending().data, a, b);
    }

    lemma WindowDrop(n: nat)
      requires Valid() && n <= bufferEnd - bufferStart
      ensures buffer[bufferStart + n..bufferEnd] + Pending().data == Stream()[n..]
    {
      hide Front;
      var window := buffer[bufferStart..bufferEnd];
      SliceSlice(buffer[..], bufferStart, bufferEnd, n, bufferEnd - bufferStart);
      assert window[n..] == window[n..bufferEnd - bufferStart];
      assert (window + Pending().data)[n..] == window[n..] + Pending().data;
    }

    /** Consumes bytes that are in the window, and in the packet. */
    method TakeWindow(n: nat) returns (value: seq<byte>)
      requires Valid() && n <= bufferEnd - bufferStart && n <= payloadLength - packetOffset
      modifies this`bufferStart, this`packetOffset
      ensures Valid() && Took(n) && value == old(Ahead()).payload[..n]
      ensures bufferStart == old(bufferStart) + n && packetOffset == old(packetOffset) + n
      ensures value == old(buffer[bufferStart..bufferStart + n])
      ensures Stream() == old(Stream())[n..]
    {
      hide Front, Look;
      ghost var s := Stream();
      LookAdvances(payloadLength, payloadLength - packetOffset, s, Low8(sequenceId - 1), n);
      WindowSlice(0, n);
      WindowDrop(n);
      value := buffer[bufferStart..bufferStart + n];
      bufferStart := bufferStart + n;
      packetOffset := packetOffset + n;
    }

    /**
     Near the end of a full packet: reads the header that follows, and joins the tail of the packet to the next one.
     */
    method CorrectNearPacketBoundary() returns (r: Result<bool>)
      requires Valid() && packetOffset > MAX - 9
      modifies this, buffer
      ensures Valid()
      ensures r.Ok? ==> Ahead() == old(Ahead())
      ensures r.Ok? && old(payloadLength) == MAX ==> packetOffset <= 0
      ensures r.Ok? && old(payloadLength) != MAX ==> Frozen()
      ensures r.Err? ==> !old(Ahead()).whole
    {
      hide Front, Look;
      if payloadLength == MAX {
        var tail := payloadLength - packetOffset;
        var wantRead := tail + HEADER; // plus the header that follows
        while bufferEnd - bufferStart < wantRead
          invariant Valid() && Frozen() && Stream() == old(Stream())
          decreases wantRead - (bufferEnd - bufferStart)
        {
          Compact();
          var more := Refill();
          if more.Err? || more.value == 0 {
            LookCut(payloadLength, tail, old(Stream()), Low8(sequenceId - 1));
            return Err(Disconnected);
          }
        }
        Join(tail);
      }
      return Ok(true);
    }

    /** Cuts the header out from between the tail of a full packet and the next packet. */
    method Join(tail: nat)
      requires Valid() && payloadLength == MAX && tail == payloadLength - packetOffset
        && bufferEnd - bufferStart >= tail + HEADER
      modifies this, buffer
      ensures Valid() && Ahead() == old(Ahead()) && packetOffset <= 0
    {
      hide Front, Look, FromLE, NextLen;
      ghost var s := Stream();
      LookJoins(tail, s, Low8(sequenceId - 1));
      WindowSlice(tail, tail + HEADER);
      HeaderAt(s, tail);
      payloadLength, sequenceId := HeaderFields(buffer[bufferStart + tail..bufferStart + tail + HEADER]);
      packetOffset := 0 - (tail as int);
      MoveTail(tail);
    }

    /** The tail is moved up to the next packet, over the header. */
    method MoveTail(tail: nat)
      requires Valid() && bufferEnd - bufferStart >= tail + HEADER
      modifies this`bufferStart, buffer
      ensures Valid() && Stream() == old(Stream())[..tail] + old(Stream())[tail + HEADER..]
    {
      hide Front, Look, FromLE, NextLen, Ahead;
      ghost var was, window := buffer[..], buffer[bufferStart..bufferEnd];
      CopyWithin(buffer, bufferStart + HEADER, bufferStart, tail);
      bufferStart := bufferStart + HEADER;
      Moved(was, buffer[..], bufferStart, bufferEnd, tail);
      JoinSlices(window, Pending().data, tail);
    }

    /**
     An unsigned little-endian integer of `k` bytes (1, 2, 3, 4 or 8), if the window has it, and no boundary is near.
     */
    method ReadUintSync(k: nat) returns (r: Option<seq<byte>>)
      requires Valid() && 1 <= k <= 8
      requires Ahead().whole ==> k <= |Ahead().payload|
      modifies this
      ensures Valid()
      ensures r.None? ==> unchanged(this)
      ensures r.Some? ==> Took(k) && r.value == old(Ahead()).payload[..k]
    {
      hide Front, Look;
      if bufferEnd - bufferStart >= k && packetOffset <= MAX - k {
        LookInside(payloadLength, payloadLength - packetOffset, Stream(), Low8(sequenceId - 1), k);
        var value := TakeWindow(k);
        return Some(value);
      }
      return None;
    }

    method ReadUintAsync(k: nat) returns (r: Result<seq<byte>>)
      requires Valid() && 1 <= k <= 8
      requires Ahead().whole ==> k <= |Ahead().payload|
      modifies this, buffer
      ensures Valid()
      ensures r.Ok? ==> Took(k) && r.value == old(Ahead()).payload[..k]
      ensures r.Err? ==> !old(Ahead()).whole
    {
      hide Front, Look;
      if packetOffset > MAX - k {
        var _ :- CorrectNearPacketBoundary();
      }
      ghost var before := Ahead();
      r := TakeAtLeast(k);
    }

    /** Waits for `n` bytes of the packet, and consumes them. */
    method TakeAtLeast(n: nat) returns (r: Result<seq<byte>>)
      requires Valid() && n <= buffer.Length
      requires Ahead().whole ==> n <= |Ahead().payload|
      requires payloadLength == MAX ==> n <= payloadLength - packetOffset
      modifies this, buffer
      ensures Valid()
      ensures r.Ok? ==> Took(n) && r.value == old(Ahead()).payload[..n]
      ensures r.Err? ==> !old(Ahead()).whole && |old(Stream())| < n
    {
      hide Front, Look;
      LookBounds(payloadLength, payloadLength - packetOffset, Stream(), Low8(sequenceId - 1));
      var _ :- RecvAtLeast(n, false);
      LookInside(payloadLength, payloadLength - packetOffset, Stream(), Low8(sequenceId - 1), n);
      var value := TakeWindow(n);
      return Ok(value);
    }

    /** An integer, from the window or after waiting for it. */
    method ReadUint(k: nat) returns (r: Result<nat>)
      requires Valid() && 1 <= k <= 8
      requires Ahead().whole ==> k <= |Ahead().payload|
      modifies this, buffer
      ensures Valid()
      ensures r.Ok? ==> Took(k) && r.value == FromLE(old(Ahead()).payload[..k])
      ensures r.Err? ==> !old(Ahead()).whole
    {
      var fast := ReadUintSync(k);
      if fast.Some? {
        return Ok(FromLE(fast.value));
      }
      var value :- ReadUintAsync(k);
      return Ok(FromLE(value));
    }

    /** The caller stays inside the payload, if a length-encoded integer is there. */
    ghost predicate LenencAhead()
      requires Valid()
      reads this, buffer
    {
      Ahead().whole ==> Ahead().payload != [] && Lenenc.Size(Ahead().payload[0]) <= |Ahead().payload|
    }

    /** The window begins as the payload does. */
    lemma WindowIsAhead(n: nat)
      requires Valid() && n <= bufferEnd - bufferStart && n <= payloadLength - packetOffset
      ensures n <= |Ahead().payload| && buffer[bufferStart..bufferStart + n] == Ahead().payload[..n]
    {
      hide Front, Look;
      LookAdvances(payloadLength, payloadLength - packetOffset, Stream(), Low8(sequenceId - 1), n);
      WindowSlice(0, n);
    }

    /** A length-encoded integer; `Lenenc.NULL` for the null mark. */
    method ReadLenencIntSync() returns (r: Option<int>)
      requires Valid() && LenencAhead()
      modifies this
      ensures Valid()
      ensures r.None? ==> unchanged(this)
      ensures r.Some? ==>
        && var p := old(Ahead()).payload;
        && p != [] && Took(Lenenc.Size(p[0])) && r.value == Lenenc.Decode(p[..Lenenc.Size(p[0])])
    {
      hide Front, Look;
      if bufferEnd > bufferStart && packetOffset <= MAX - 9 {
        r := TakeLenenc();
        return;
      }
      return None;
    }

    /** The integer, if all of it is in the window. */
    method TakeLenenc() returns (r: Option<int>)
      requires Valid() && LenencAhead() && bufferEnd > bufferStart
      requires payloadLength == MAX ==> 9 <= payloadLength - packetOffset
      modifies this
      ensures Valid()
      ensures r.None? ==> unchanged(this) && bufferEnd - bufferStart < Lenenc.Size(buffer[bufferStart])
      ensures r.Some? ==>
        && var p := old(Ahead()).payload;
        && p != [] && Took(Lenenc.Size(p[0])) && r.value == Lenenc.Decode(p[..Lenenc.Size(p[0])])
    {
      hide Front, Look;
      var s := Lenenc.Size(buffer[bufferStart]);
      ghost var rem, id := payloadLength - packetOffset, Low8(sequenceId - 1);
      LookInside(payloadLength, rem, Stream(), id, 1);
      WindowIsAhead(1);
      assert Ahead().payload[..1][0] == buffer[bufferStart];
      if bufferEnd - bufferStart < s {
        return None;
      }
      LookInside(payloadLength, rem, Stream(), id, s);
      var value := TakeWindow(s);
      assert value[0] == old(buffer[bufferStart]);
      return Some(Lenenc.Decode(value));
    }

    /** Waits for the first byte of a length-encoded integer, and leaves it there. */
    method FirstByte() returns (r: Result<byte>)
      requires Valid() && LenencAhead()
      modifies this, buffer
      ensures Valid()
      ensures r.Ok? ==> Ahead() == old(Ahead()) && Ahead().payload != [] && Ahead().payload[0] == r.value
      ensures r.Ok? && payloadLength == MAX ==> packetOffset <= MAX - 9
      ensures r.Err? ==> !old(Ahead()).whole
    {
      hide Front, Look, Lenenc.Size;
      if packetOffset > MAX - 9 {
        var _ :- CorrectNearPacketBoundary();
      }
      LookBounds(payloadLength, payloadLength - packetOffset, Stream(), Low8(sequenceId - 1));
      if bufferEnd == bufferStart {
        var _ :- RecvAtLeast(1, false);
      }
      LookInside(payloadLength, payloadLength - packetOffset, Stream(), Low8(sequenceId - 1), 1);
      WindowIsAhead(1);
      assert Ahead().payload[..1][0] == buffer[bufferStart];
      return Ok(buffer[bufferStart]);
    }

    method ReadLenencIntAsync() returns (r: Result<int>)
      requires Valid() && LenencAhead()
      modifies this, buffer
      ensures Valid()
      ensures r.Ok? ==>
        && var p := old(Ahead()).payload;
        && p != [] && Took(Lenenc.Size(p[0])) && r.value == Lenenc.Decode(p[..Lenenc.Size(p[0])])
      ensures r.Err? ==> !old(Ahead()).whole
    {
      hide Front, Look, Lenenc.Decode, Lenenc.Size, Ahead;
      var first :- FirstByte();
      var bytes :- TakeAtLeast(Lenenc.Size(first));
      return Ok(Lenenc.Decode(bytes));
    }

    method ReadLenencInt() returns (r: Result<int>)
      requires Valid() && LenencAhead()
      modifies this, buffer
      ensures Valid()
      ensures r.Ok? ==>
        && var p := old(Ahead()).payload;
        && p != [] && Took(Lenenc.Size(p[0])) && r.value == Lenenc.Decode(p[..Lenenc.Size(p[0])])
      ensures r.Err? ==> !old(Ahead()).whole
    {
      var fast := ReadLenencIntSync();
      if fast.Some? {
        return Ok(fast.value);
      }
      r := ReadLenencIntAsync();
    }

    // ----- Bytes -----

    /** Bytes that fit the window, from the window: also over the boundary of a full packet, if its header is there. */
    method ReadShortBytesSync(len: nat) returns (r: Result<Option<seq<byte>>>)
      requires Valid() && (Ahead().whole ==> len <= |Ahead().payload|)
      modifies this, buffer
      ensures Valid()
      ensures r.Err? <==> len > buffer.Length - HEADER
      ensures r.Err? ==> r == Err(TooLong)
      ensures r.Err? || r.value.None? ==> unchanged(this)
      ensures r.Ok? && r.value.Some? ==> Took(len) && r.value.value == old(Ahead()).payload[..len]
      ensures r.Ok? && r.value.None? ==> Ahead() == old(Ahead())
    {
      hide Front, Look;
      if len > buffer.Length - HEADER {
        return Err(TooLong);
      }
      var haveBytes := bufferEnd - bufferStart;
      if haveBytes >= len {
        var lenInCurPacket := payloadLength - packetOffset;
        if lenInCurPacket >= len {
          var value := TakeWindow(len);
          return Ok(Some(value));
        } else if haveBytes >= len + HEADER { // across packet boundary: count the header
          var value := TakeAcross(len);
          if value.Ok? {
            return Ok(Some(value.value));
          }
          assert false;
        }
      }
      return Ok(None);
    }

    /** At the end of a full packet, the header of the next one is in the window. */
    method TakeNextHeader()
      requires Valid() && payloadLength == packetOffset == MAX && bufferEnd - bufferStart >= HEADER
      modifies this
      ensures Valid() && Ahead() == old(Ahead()) && bufferStart == old(bufferStart) + HEADER
        && bufferEnd == old(bufferEnd)
      ensures packetOffset == 0 && Stream() == old(Stream())[HEADER..]
    {
      hide Front, Look;
      ghost var s := Stream();
      LookJoins(0, s, Low8(sequenceId - 1));
      assert s[..0] + s[HEADER..] == s[HEADER..];
      TakeHeader();
    }

    /** Reads over the boundary of a full packet. */
    method TakeAcross(len: nat) returns (r: Result<seq<byte>>)
      requires Valid() && payloadLength - packetOffset < len <= buffer.Length - HEADER
      requires Ahead().whole ==> len <= |Ahead().payload|
      modifies this, buffer
      ensures Valid()
      ensures r.Ok? ==> Took(len) && r.value == old(Ahead()).payload[..len]
      ensures r.Err? ==> !old(Ahead()).whole
      ensures old(bufferEnd) - old(bufferStart) >= len + HEADER ==> r.Ok?
    {
      hide Front, Look, View.Drop;
      var lenInCurPacket := payloadLength - packetOffset;
      ghost var v0, id0 := Ahead(), Low8(sequenceId - 1);
      LookBeyond(payloadLength, lenInCurPacket, Stream(), id0, len);
      var _ :- RecvAtLeast(lenInCurPacket + HEADER, false);
      var head := TakeWindow(lenInCurPacket);
      TakeNextHeader();
      DropKeeps(v0, lenInCurPacket);
      var tail :- TakeAtLeast(len - lenInCurPacket);
      DropDrop(v0, lenInCurPacket, len - lenInCurPacket);
      return Ok(head + tail);
    }

    method ReadShortBytesAsync(len: nat) returns (r: Result<seq<byte>>)
      requires Valid() && len <= buffer.Length - HEADER && (Ahead().whole ==> len <= |Ahead().payload|)
      modifies this, buffer
      ensures Valid()
      ensures r.Ok? ==> Took(len) && r.value == old(Ahead()).payload[..len]
      ensures r.Err? ==> !old(Ahead()).whole
    {
      hide Front, Look;
      if payloadLength - packetOffset >= len {
        r := TakeAtLeast(len);
      } else {
        r := TakeAcross(len);
      }
    }

    method ReadShortBytes(len: nat) returns (r: Result<seq<byte>>)
      requires Valid() && (Ahead().whole ==> len <= |Ahead().payload|)
      modifies this, buffer
      ensures Valid()
      ensures r.Ok? ==> Took(len) && r.value == old(Ahead()).payload[..len]
      ensures r.Err? ==> !old(Ahead()).whole || len > buffer.Length - HEADER
      ensures len > buffer.Length - HEADER ==> r == Err(TooLong)
    {
      hide Front, Look;
      var fast :- ReadShortBytesSync(len);
      if fast.Some? {
        return Ok(fast.value);
      }
      r := ReadShortBytesAsync(len);
    }

    /** At the end of a full packet: takes the header of the next one. */
    method NextPacket() returns (r: Result<bool>)
      requires Valid() && payloadLength == packetOffset && (Ahead().whole ==> Ahead().payload != [])
      modifies this, buffer
      ensures Valid()
      ensures r.Ok? ==> Ahead() == old(Ahead()) && packetOffset < payloadLength
      ensures r.Err? ==> !old(Ahead()).whole
    {
      hide Front, Look;
      ghost var s, id := Stream(), Low8(sequenceId - 1);
      LookBounds(payloadLength, 0, s, id);
      assert s[..0] == [];
      if |s| < HEADER {
        LookCut(payloadLength, 0, s, id);
      } else {
        LookJoins(0, s, id);
        assert s[..0] + s[HEADER..] == s[HEADER..];
      }
      var ok := ReadPacketHeaderSync();
      if !ok {
        var _ :- ReadPacketHeaderAsync();
      }
      LookBounds(payloadLength, payloadLength, Stream(), Low8(sequenceId - 1));
      assert Stream()[..0] == [];
      return Ok(true);
    }

    /** Copies bytes of the packet from the window to `dest[pos..]`. */
    method CopyFromWindow(dest: array<byte>, pos: nat, n: nat)
      requires Valid() && dest != buffer && pos + n <= dest.Length
      requires n <= bufferEnd - bufferStart && n <= payloadLength - packetOffset
      modifies this`bufferStart, this`packetOffset, dest
      ensures Valid() && Took(n) && dest[..pos + n] == old(dest[..pos]) + old(Ahead()).payload[..n]
      ensures bufferEnd - bufferStart == old(bufferEnd - bufferStart) - n
      ensures payloadLength - packetOffset == old(payloadLength - packetOffset) - n
    {
      hide Front, Look, Ahead;
      ghost var payload := Ahead().payload;
      var bytes := TakeWindow(n);
      assert bytes == payload[..n];
      PutNext(dest, pos, bytes);
    }

    /** Reads bytes of the packet directly from the connection to `dest[pos..pos+room)`, when the window is empty. */
    method ReadDirect(dest: array<byte>, pos: nat, room: nat) returns (r: Result<nat>)
      requires Valid() && dest != buffer && pos + room <= dest.Length
      requires bufferStart == bufferEnd && 0 < room <= payloadLength - packetOffset
      modifies this, dest
      ensures Valid() && bufferStart == bufferEnd && unchanged(this`payloadLength) && unchanged(this`sequenceId)
      ensures r.Ok? ==> 1 <= r.value <= room && Took(r.value)
      ensures r.Ok? ==> dest[..pos + r.value] == old(dest[..pos]) + old(Ahead()).payload[..r.value]
      ensures r.Ok? ==> packetOffset == old(packetOffset) + r.value
      ensures r.Err? ==> !old(Ahead()).whole
    {
      hide Front, Look;
      ghost var s, rem, id := Stream(), payloadLength - packetOffset, Low8(sequenceId - 1);
      assert s == Pending().data;
      r := ReadFromConn(dest, pos, room);
      if r.Err? || r.value == 0 {
        LookCut(payloadLength, rem, s, id);
        return Err(Disconnected);
      }
      var n := r.value;
      LookAdvances(payloadLength, rem, s, id, n);
      packetOffset := packetOffset + n;
      bufferStart := 0;
      bufferEnd := 0;
      assert Stream() == s[n..];
      assert dest[..pos + n] == dest[..pos] + dest[pos..pos + n];
    }

    /** Copies what the current packet has for `dest[pos..]`: first from the window, then from the connection. */
    method FillFromPacket(dest: array<byte>, pos: nat) returns (r: Result<nat>)
      requires Valid() && dest != buffer && pos < dest.Length && packetOffset < payloadLength
      modifies this, buffer, dest
      ensures Valid()
      ensures r.Ok? ==> pos < r.value <= dest.Length && Took(r.value - pos)
      ensures r.Ok? ==> dest[..r.value] == old(dest[..pos]) + old(Ahead()).payload[..r.value - pos]
      ensures r.Err? ==> !old(Ahead()).whole
    {
      hide Front, Look, View.Drop, Ahead;
      var at := pos;
      ghost var v, d0 := Ahead(), dest[..pos];
      DropNone(v);
      var haveBytes := bufferEnd - bufferStart;
      if haveBytes > 0 {
        var len := Min3(haveBytes, payloadLength - packetOffset, dest.Length - pos);
        CopyFromWindow(dest, at, len);
        at := at + len;
      }
      ghost var before := dest[..at];
      DropKeeps(v, at - pos);
      var to :- FillFromConn(dest, at);
      Filled(d0, v, at - pos, to - at, before, dest[..to]);
      return Ok(to);
    }

    /** The part of it that comes from the connection. */
    method FillFromConn(dest: array<byte>, from: nat) returns (r: Result<nat>)
      requires Valid() && dest != buffer && from <= dest.Length
      requires packetOffset < payloadLength && from < dest.Length ==> bufferStart == bufferEnd
      modifies this, buffer, dest
      ensures Valid()
      ensures r.Ok? ==> from <= r.value <= dest.Length && Took(r.value - from)
      ensures r.Ok? && old(packetOffset) < old(payloadLength) && from < dest.Length ==> from < r.value
      ensures r.Ok? ==> dest[..r.value] == old(dest[..from]) + old(Ahead()).payload[..r.value - from]
      ensures r.Err? ==> !old(Ahead()).whole
    {
      hide Front, Look, View.Drop, Ahead;
      var at := from;
      ghost var v, d0 := Ahead(), dest[..from];
      DropNone(v);
      while payloadLength - packetOffset > 0 && at < dest.Length
        invariant Valid() && from <= at <= dest.Length && at - from <= |v.payload|
        invariant payloadLength - packetOffset > 0 && at < dest.Length ==> bufferStart == bufferEnd
        invariant at == from ==> packetOffset == old(packetOffset) && payloadLength == old(payloadLength)
        invariant Ahead() == v.Drop(at - from)
        invariant dest[..at] == d0 + v.payload[..at - from]
        decreases dest.Length - at
      {
        DropKeeps(v, at - from);
        ghost var before := dest[..at];
        var n :- ReadDirect(dest, at, Min3(payloadLength - packetOffset, dest.Length - at, dest.Length - at));
        Filled(d0, v, at - from, n, before, dest[..at + n]);
        at := at + n;
      }
      return Ok(at);
    }

    static lemma Filled(d0: seq<byte>, v: View, k: nat, n: nat, before: seq<byte>, after: seq<byte>)
      requires k <= |v.payload| && n <= |v.Drop(k).payload|
      requires before == d0 + v.payload[..k] && after == before + v.Drop(k).payload[..n]
      ensures k + n <= |v.payload| && v.Drop(k).Drop(n) == v.Drop(k + n) && after == d0 + v.payload[..k + n]
    {
      DropDrop(v, k, n);
      ConcatAssoc(d0, v.payload[..k], v.Drop(k).payload[..n]);
    }

    /** Fills `dest` with payload bytes, over any number of packets. */
    method ReadBytesToBuffer(dest: array<byte>) returns (r: Result<bool>)
      requires Valid() && dest != buffer && (Ahead().whole ==> dest.Length <= |Ahead().payload|)
      modifies this, buffer, dest
      ensures Valid()
      ensures r.Ok? ==> Took(dest.Length) && dest[..] == old(Ahead()).payload[..dest.Length]
      ensures r.Err? ==> !old(Ahead()).whole
    {
      hide Front, Look, View.Drop;
      var pos := 0;
      ghost var v := Ahead();
      DropNone(v);
      while pos < dest.Length
        invariant Valid() && 0 <= pos <= dest.Length && pos <= |v.payload|
        invariant Ahead() == v.Drop(pos)
        invariant dest[..pos] == v.payload[..pos]
        decreases dest.Length - pos
      {
        DropKeeps(v, pos);
        if payloadLength == packetOffset {
          var _ :- NextPacket();
        }
        var to :- FillFromPacket(dest, pos);
        DropDrop(v, pos, to - pos);
        pos := to;
      }
      assert dest[..] == dest[..pos];
      return Ok(true);
    }

    // ----- Skipping -----

    /** Skips `len` bytes, if the window has them, and no boundary of a full packet is before their end. */
    method ReadVoidSync(len: nat) returns (ok: bool)
      requires Valid() && (Ahead().whole ==> len <= |Ahead().payload|)
      modifies this
      ensures Valid()
      ensures if ok then Took(len) else unchanged(this)
    {
      hide Front, Look;
      if bufferEnd - bufferStart >= len && packetOffset <= MAX - len {
        LookInside(payloadLength, payloadLength - packetOffset, Stream(), Low8(sequenceId - 1), len);
        var _ := TakeWindow(len);
        return true;
      }
      return false;
    }

    /** Skips bytes of the current packet, reading through the whole buffer. */
    method SkipInPacket(n: nat) returns (r: Result<bool>)
      requires Valid() && 0 < n <= payloadLength - packetOffset
      modifies this, buffer
      ensures Valid()
      ensures r.Ok? ==> Took(n)
      ensures r.Err? ==> !old(Ahead()).whole
    {
      hide Front, Look;
      ghost var s, rem, id := Stream(), payloadLength - packetOffset, Low8(sequenceId - 1);
      packetOffset := packetOffset + n;
      var haveBytes := bufferEnd - bufferStart;
      if haveBytes >= n {
        WindowDrop(n);
        bufferStart := bufferStart + n;
      } else {
        r := ReadPast(n - haveBytes);
        if r.Err? {
          LookCut(payloadLength, rem, s, id);
          return;
        }
        assert s[n..] == s[haveBytes..][n - haveBytes..];
      }
      LookAdvances(payloadLength, rem, s, id, n);
      return Ok(true);
    }

    /** What is read next from the connection becomes the window, in the place of what was there. */
    method ReadChunk() returns (r: Result<bool>)
      requires Valid()
      modifies this, buffer
      ensures Valid() && Frozen()
      ensures r.Ok? ==>
        && 0 == bufferStart < bufferEnd && buffer[..bufferEnd] <= old(Pending()).data
        && Pending().data == old(Pending()).data[bufferEnd..]
      ensures r.Err? ==> old(Pending()).data == []
    {
      hide Front, Look, Ahead;
      var more := ReadFromConn(buffer, 0, buffer.Length);
      if more.Err? || more.value == 0 {
        return Err(Disconnected);
      }
      bufferStart, bufferEnd := 0, more.value;
      assert buffer[0..bufferEnd] == buffer[..bufferEnd];
      return Ok(true);
    }

    /** Reads and drops `n` bytes that are not in the window, which is used up. */
    method ReadPast(n: nat) returns (r: Result<bool>)
      requires Valid() && n > 0
      modifies this, buffer
      ensures Valid() && Frozen()
      ensures r.Ok? ==> n <= |old(Pending()).data| && Stream() == old(Pending()).data[n..]
      ensures r.Err? ==> |old(Pending()).data| < n
    {
      hide Front, Look, Ahead;
      ghost var s: seq<byte>, chunk: seq<byte> := Pending().data, [];
      var left: int := n;
      while left > 0
        invariant Valid() && left <= n && Frozen()
        invariant left > 0 ==> n - left <= |s| && Pending().data == s[n - left..]
        invariant left <= 0 ==> chunk == buffer[..bufferEnd] && |chunk| + left >= 0
        invariant left <= 0 ==> n <= |s| && chunk[|chunk| + left..] + Pending().data == s[n..]
        decreases left
      {
        ghost var was := Pending().data;
        var _ :- ReadChunk();
        chunk := buffer[..bufferEnd];
        SkipChunk(s, n, left, chunk, was);
        left := left - bufferEnd;
      }
      bufferStart := bufferEnd + left;
      assert buffer[bufferStart..bufferEnd] == chunk[bufferStart..];
      return Ok(true);
    }

    /** Skips `n` bytes, over any number of packets. */
    method ReadVoidAsync(n: nat) returns (r: Result<bool>)
      requires Valid() && (Ahead().whole ==> n <= |Ahead().payload|)
      modifies this, buffer
      ensures Valid()
      ensures r.Ok? ==> Took(n)
      ensures r.Err? ==> !old(Ahead()).whole
    {
      hide Front, Look, View.Drop;
      var len := n;
      ghost var v := Ahead();
      DropNone(v);
      while len > 0
        invariant Valid() && 0 <= len <= n && n - len <= |v.payload|
        invariant Ahead() == v.Drop(n - len)
        decreases len
      {
        DropKeeps(v, n - len);
        if packetOffset > MAX - 1 {
          var _ :- CorrectNearPacketBoundary();
        }
        LookBounds(payloadLength, payloadLength - packetOffset, Stream(), Low8(sequenceId - 1));
        assert Stream()[..0] == [];
        var lenInCurPacket := if len < payloadLength - packetOffset then len else payloadLength - packetOffset;
        ghost var done := n - len;
        var _ :- SkipInPacket(lenInCurPacket);
        DropDrop(v, done, lenInCurPacket);
        len := len - lenInCurPacket;
      }
      return Ok(true);
    }

    method ReadVoid(len: nat) returns (r: Result<bool>)
      requires Valid() && (Ahead().whole ==> len <= |Ahead().payload|)
      modifies this, buffer
      ensures Valid()
      ensures r.Ok? ==> Took(len)
      ensures r.Err? ==> !old(Ahead()).whole
    {
      var fast := ReadVoidSync(len);
      if fast {
        return Ok(true);
      }
      r := ReadVoidAsync(len);
    }
  }

  lemma SkipChunk(s: seq<byte>, n: nat, left: int, chunk: seq<byte>, was: seq<byte>)
    requires 0 < left <= n && n - left <= |s| && was == s[n - left..] && chunk <= was
    ensures left - |chunk| > 0 ==> n - (left - |chunk|) <= |s| && was[|chunk|..] == s[n - (left - |chunk|)..]
    ensures left - |chunk| <= 0 ==> n <= |s| && chunk[left..] + was[|chunk|..] == s[n..]
  {
    if left <= |chunk| {
      assert chunk + was[|chunk|..] == was;
      assert chunk[left..] + was[|chunk|..] == was[left..];
    }
  }

  function Min3(a: nat, b: nat, c: nat): nat {
    if a <= b && a <= c then a else if b <= c then b else c
  }

  lemma DropNone(v: View)
    ensures v.Drop(0) == v && v.payload[..0] == []
  {
  }

  lemma DropKeeps(v: View, n: nat)
    requires n <= |v.payload|
    ensures v.Drop(n).whole == v.whole && |v.Drop(n).payload| == |v.payload| - n
  {
  }

  lemma HeaderAt(s: seq<byte>, at: nat)
    requires at + HEADER <= |s|
    ensures FromLE(s[at..at + HEADER][..3]) == NextLen(s, at) && s[at..at + HEADER][3] == s[at + 3]
  {
    SliceSlice(s, at, at + HEADER, 0, 3);
  }

  /** The tail was moved up to the next packet. */
  lemma Moved(was: seq<byte>, now: seq<byte>, start: nat, end: nat, tail: nat)
    requires |now| == |was| && HEADER <= start && start + tail <= end <= |was|
    requires now[start..start + tail] == was[start - HEADER..start - HEADER + tail]
      && now[start + tail..] == was[start + tail..]
    ensures var window := was[start - HEADER..end];
      now[start..end] == window[..tail] + window[tail + HEADER..]
  {
    SliceSlice(was, start - HEADER, end, 0, tail);
    SliceSlice(was, start - HEADER, end, tail + HEADER, end - start + HEADER);
    assert now[start + tail..end] == now[start + tail..][..end - start - tail];
    assert was[start + tail..end] == was[start + tail..][..end - start - tail];
    assert now[start..end] == now[start..start + tail] + now[start + tail..end];
  }

  lemma InWindow(window: seq<byte>, rest: seq<byte>, a: nat, b: nat)
    requires a <= b <= |window|
    ensures (window + rest)[a..b] == window[a..b]
  {
  }

  lemma JoinSlices(window: seq<byte>, rest: seq<byte>, tail: nat)
    requires tail + HEADER <= |window|
    ensures window[..tail] + window[tail + HEADER..] + rest ==
      (window + rest)[..tail] + (window + rest)[tail + HEADER..]
  {
  }
}
