/**
 The sending half of a connection: packets are collected in one buffer, long data is cut into packets,
 and in the compressed protocol everything is wrapped in compressed packets, built in the same buffer.
 */
module Writer {
  import opened Bytes
  import opened Results
  import opened Packets
  import opened Compression
  import opened ByteArrays
  import Utf8

  /** The reserve that must stay free behind a packet that is kept in the buffer. */
  const PRELUDE: nat := 12

  /** `encodeInto`: whole characters, as many as fit `dest[from..to)`. */
  method EncodeInto(s: Utf8.Str, dest: array<byte>, from: nat, to: nat) returns (read: nat, written: nat)
    requires from <= to <= dest.Length
    modifies dest
    ensures read == Utf8.Fits(s, to - from) && written == |Utf8.Encode(s[..read])| <= to - from
    ensures dest[..from] == old(dest[..from])
    ensures dest[from..from + written] == Utf8.Encode(s[..read])
    ensures dest[from + written..] == old(dest[from + written..])
    ensures Utf8.Encode(s) == Utf8.Encode(s[..read]) + Utf8.Encode(s[read..])
    ensures read == |s| <==> |Utf8.Encode(s)| <= to - from
    ensures written == 0 <==> s == [] || |Utf8.First(s)| > to - from
  {
    read := Utf8.Fits(s, to - from);
    Utf8.FitsCuts(s, to - from, read);
    Utf8.FitsAll(s, to - from);
    var bytes := Utf8.Encode(s[..read]);
    written := |bytes|;
    Put(dest, from, bytes);
  }

  /** The header as one 32-bit store: the length in the low 3 bytes, the sequence id in the high one. */
  lemma HeaderWord(len: nat, id: int)
    requires len <= MAX
    ensures LE(len + 0x100_0000 * Low8(id), 4) == Header(len, id)
  {
    var b: int := Low8(id);
    var word := len + 0x100_0000 * b;
    assert LE(word, 4) == LE(len, 3) + [b] by {
      WordBytes(len, b);
      LEUnroll(word);
      LEUnroll(len);
    }
  }

  lemma WordBytes(len: nat, b: nat)
    requires len <= MAX && b < 0x100
    ensures var word := len + 0x100_0000 * b;
      && word % 0x100 == len % 0x100
      && word / 0x100 % 0x100 == len / 0x100 % 0x100
      && word / 0x1_0000 % 0x100 == len / 0x1_0000 % 0x100
      && word / 0x100_0000 % 0x100 == b
  {
    var word := len + 0x100_0000 * b;
    assert word / 0x100 == len / 0x100 + 0x1_0000 * b;
    assert word / 0x1_0000 == len / 0x1_0000 + 0x100 * b;
  }

  /**
   Where the last packet would end in the buffer, when `len` bytes are appended to a packet that begins at `start` and
   ends at `end`.
   */
  function EndAfter(start: nat, end: nat, len: nat): nat
    requires start + HEADER <= end
  {
    var size := end - start - HEADER + len;
    if size < MAX then end + len else HEADER + size % MAX
  }

  /** A full packet is gone. */
  lemma EndAfterCut(start: nat, end: nat, len: nat, k: nat)
    requires start + HEADER <= end && end - start - HEADER + k == MAX && k <= len
    ensures EndAfter(0, HEADER, len - k) == EndAfter(start, end, len)
  {
  }

  /** Filling in the header makes the buffer hold the finished packet. */
  lemma HeaderCompletes(sent: seq<byte>, was: seq<byte>, now: seq<byte>, start: nat, end: nat, id: int)
    requires start + HEADER <= end <= |was| && end - start - HEADER < MAX
    requires |now| == |was| && now[..start] == was[..start]
    requires now[start..start + HEADER] == Header(end - start - HEADER, id)
    requires now[start + HEADER..] == was[start + HEADER..]
    ensures now[..end] == was[..start] + Frames(was[start + HEADER..end] + [], id)
    ensures sent + now[..end] == sent + was[..start] + Frames(was[start + HEADER..end] + [], id)
  {
    var payload := was[start + HEADER..end];
    assert payload + [] == payload;
    assert now[start + HEADER..end] == now[start + HEADER..][..|payload|];
    assert was[start + HEADER..end] == was[start + HEADER..][..|payload|];
    assert now[..end] == now[..start] + (now[start..start + HEADER] + now[start + HEADER..end]);
    ConcatAssoc(sent, was[..start], Frames(payload, id));
  }

  lemma FlushedBytes(sent: seq<byte>, was: seq<byte>, now: seq<byte>, start: nat, end: nat, header: seq<byte>)
    requires start + HEADER <= end <= |was| && |now| == |was| && now[..start] == was[..start]
    requires now[start..start + HEADER] == header && now[start + HEADER..] == was[start + HEADER..]
    ensures sent + now[..end] == sent + was[..start] + header + was[start + HEADER..end]
  {
    assert now[start + HEADER..end] == now[start + HEADER..][..end - start - HEADER];
    assert was[start + HEADER..end] == was[start + HEADER..][..end - start - HEADER];
    assert now[..end] == now[..start] + header + now[start + HEADER..end];
  }

  lemma FullPacketSent(committed: seq<byte>, cur: seq<byte>, rest: seq<byte>, id: int, k: nat, sent: seq<byte>)
    requires |cur| + k == MAX && k <= |rest|
    requires sent == committed + Header(MAX, id) + cur + rest[..k]
    ensures sent + Frames(rest[k..], id + 1) == committed + Frames(cur + rest, id)
  {
    hide Frames, Header;
    FramesCut(cur, rest, id, k);
    var header, more := Header(MAX, id), Frames(rest[k..], id + 1);
    assert committed + header + cur + rest[..k] + more == committed + (header + cur + rest[..k] + more);
  }

  lemma LastPacketSent(committed: seq<byte>, cur: seq<byte>, rest: seq<byte>, id: int)
    requires |cur + rest| < MAX
    ensures committed + Header(|cur + rest|, id) + cur + rest == committed + Frames(cur + rest, id)
  {
    hide Header;
    var header := Header(|cur + rest|, id);
    assert committed + header + cur + rest == committed + (header + (cur + rest));
  }

  lemma SplitSplit(first: seq<byte>, rest: seq<byte>, k: nat)
    requires k <= |first|
    ensures (first + rest)[..k] == first[..k] && (first + rest)[k..] == first[k..] + rest
  {
  }

  lemma TakeMore(base: seq<byte>, whole: seq<byte>, done: nat, len: nat)
    requires done + len <= |whole|
    ensures base + whole[..done] + whole[done..][..len] == base + whole[..done + len]
    ensures whole[done..][len..] == whole[done + len..]
  {
    assert whole[..done] + whole[done..][..len] == whole[..done + len];
  }

  lemma NothingWritten(sent: seq<byte>, before: seq<byte>, cur: seq<byte>, data: seq<byte>, id: int)
    requires before == [] && cur == []
    ensures sent + before + Frames(cur + data, id) == sent + Frames(data, id)
  {
    assert cur + data == data && sent + before == sent;
  }

  function Popped(starts: seq<nat>, at: nat): seq<nat> {
    if starts != [] && starts[|starts| - 1] == at then starts[..|starts| - 1] else starts
  }

  lemma PoppedBelow(starts: seq<nat>, at: nat)
    requires forall i, j :: 0 <= i < j < |starts| ==> starts[i] < starts[j]
    requires forall c :: c in starts ==> c <= at
    ensures Increasing(Popped(starts, at), 0, at) && at !in Popped(starts, at)
  {
    var n := |starts|;
    forall i | 0 <= i < |Popped(starts, at)| ensures starts[i] < at {
      assert starts[i] in starts && starts[n - 1] in starts;
    }
  }

  class Writer {
    const buffer: array<byte>
    const alg: Algorithm
    const codec: Codec
    var bufferStart: nat
    var bufferEnd: nat
    var sequenceId: int
    var compressedSeqId: byte
    var commandStarts: seq<nat> // where commands begin in the buffer; tracked in the compressed protocol only
    var wire: seq<byte> // everything given to the connection
    ghost var sent: seq<byte> // the ordinary packet stream that `wire` carries

    /** The connection carries exactly `sent`. */
    ghost predicate WireOk()
      reads this
    {
      && 32 <= buffer.Length <= MAX
      && if alg == Plain then wire == sent
         else
           && Lawful(codec, alg)
           && Unpack(codec, wire, 0).clean && Unpack(codec, wire, 0).data == sent
    }

    ghost predicate Valid()
      reads this
    {
      && WireOk()
      && bufferStart <= bufferEnd <= buffer.Length
      && (alg == Plain ==> commandStarts == [])
      && Increasing(commandStarts, 0, bufferEnd)
      && (forall c :: c in commandStarts ==> c <= bufferStart)
    }

    /** A packet is being written, behind its header. */
    ghost predicate Open()
      reads this
    {
      Valid() && bufferStart + HEADER <= bufferEnd
    }

    /** The payload of the packet being written. */
    ghost function Current(): seq<byte>
      requires Open()
      reads this, buffer
    {
      buffer[bufferStart + HEADER..bufferEnd]
    }

    /** The packet stream up to the packet being written. */
    ghost function Committed(): seq<byte>
      requires Valid()
      reads this, buffer
    {
      sent + buffer[..bufferStart]
    }

    /** The packet stream, when the packet being written is completed with `more`. */
    ghost function FinishedWith(more: seq<byte>): seq<byte>
      requires Open()
      reads this, buffer
    {
      Committed() + Frames(Current() + more, sequenceId)
    }

    constructor (buffer: array<byte>, alg: Algorithm, codec: Codec)
      requires 32 <= buffer.Length <= MAX && (alg != Plain ==> Lawful(codec, alg))
      ensures Valid() && this.buffer == buffer && this.alg == alg && this.codec == codec
      ensures bufferStart == bufferEnd == 0 && wire == [] && sent == []
    {
      this.buffer, this.alg, this.codec := buffer, alg, codec;
      bufferStart, bufferEnd, sequenceId, compressedSeqId := 0, 0, 0, 0;
      commandStarts, wire, sent := [], [], [];
    }

    // ----- Writing packets -----

    /** A packet left open is finished; but if nothing is open, whatever the buffer holds is forgotten. */
    method StartWritingNewPacket(resetSequenceId: bool)
      requires Valid() && bufferEnd + HEADER <= buffer.Length
      requires bufferStart != bufferEnd ==> Open()
      modifies this, buffer
      ensures Open() && Current() == [] && sent == old(sent) && wire == old(wire)
      ensures Committed() == if old(bufferStart) == old(bufferEnd) then old(sent) else old(FinishedWith([]))
      ensures sequenceId ==
        if resetSequenceId then 0
        else if old(bufferStart) == old(bufferEnd) then old(sequenceId) else old(sequenceId) + 1
      ensures bufferStart == if old(bufferStart) == old(bufferEnd) then 0 else old(bufferEnd)
      ensures bufferEnd == bufferStart + HEADER
      ensures commandStarts == (if old(bufferStart) == old(bufferEnd) then [] else old(commandStarts))
                               + (if resetSequenceId && alg != Plain then [bufferStart] else [])
      ensures compressedSeqId == old(compressedSeqId)
    {
      hide Unpack, Lawful, Frames, Header, Layout, Tiles, CommandsApart, Packed, IdAfter;
      if bufferEnd == bufferStart {
        bufferStart := 0;
        bufferEnd := HEADER;
        commandStarts := [];
      } else {
        QueuePacket();
      }
      if resetSequenceId {
        BeginCommand();
      }
    }

    /** The open packet is the first of a command. */
    method BeginCommand()
      requires Open() && forall c :: c in commandStarts ==> c < bufferStart
      modifies this`sequenceId, this`commandStarts
      ensures Open() && sequenceId == 0
      ensures commandStarts == if alg != Plain then old(commandStarts) + [bufferStart] else old(commandStarts)
    {
      hide Unpack, Lawful;
      sequenceId := 0;
      if alg != Plain {
        assert forall i :: 0 <= i < |commandStarts| ==> commandStarts[i] in commandStarts;
        commandStarts := commandStarts + [bufferStart];
      }
    }

    /** Continuation: another packet will be written after the existing, not sent one. */
    method QueuePacket()
      requires Open() && bufferEnd + HEADER <= buffer.Length
      modifies this`bufferStart, this`bufferEnd, this`sequenceId, buffer
      ensures Open() && Current() == [] && Committed() == old(FinishedWith([]))
      ensures sequenceId == old(sequenceId) + 1
      ensures bufferStart == old(bufferEnd) && bufferEnd == bufferStart + HEADER
      ensures forall c :: c in commandStarts ==> c < bufferStart
    {
      hide Unpack, Lawful, Frames;
      SetHeader(bufferEnd - bufferStart - HEADER);
      HeaderCompletes(sent, old(buffer[..]), buffer[..], bufferStart, bufferEnd, old(sequenceId));
      assert old(FinishedWith([])) == sent + buffer[..bufferEnd];
      bufferStart := bufferEnd;
      bufferEnd := bufferEnd + HEADER;
    }

    /** Forgets the packet being written, and its command, if it begins one. */
    method DiscardPacket()
      requires Open()
      modifies this`bufferEnd, this`commandStarts
      ensures Valid() && bufferEnd == bufferStart && bufferStart !in commandStarts
      ensures commandStarts == Popped(old(commandStarts), bufferStart)
    {
      hide Unpack, Lawful;
      bufferEnd := bufferStart;
      PoppedBelow(commandStarts, bufferStart);
      var n := |commandStarts|;
      if n != 0 && commandStarts[n - 1] == bufferStart {
        commandStarts := commandStarts[..n - 1];
      }
    }

    /** Appends bytes to the packet being written (`writeUint8`, `writeShortBytes` and the like). */
    method WriteBytes(bytes: seq<byte>)
      requires Open() && bufferEnd + |bytes| <= buffer.Length
      modifies this`bufferEnd, buffer
      ensures Open() && Current() == old(Current()) + bytes && bufferEnd == old(bufferEnd) + |bytes|
      ensures buffer[..old(bufferEnd)] == old(buffer[..bufferEnd])
      ensures Committed() == old(Committed())
    {
      hide Unpack, Lawful, Frames;
      Put(buffer, bufferEnd, bytes);
      bufferEnd := bufferEnd + |bytes|;
      assert buffer[..bufferStart] == old(buffer[..bufferStart]);
    }

    /** The 4-byte header of the packet at `bufferStart`. */
    method SetHeader(payloadLength: nat)
      requires bufferStart + HEADER <= buffer.Length && payloadLength <= MAX
      modifies this`sequenceId, buffer
      ensures sequenceId == old(sequenceId) + 1
      ensures buffer[..bufferStart] == old(buffer[..bufferStart])
      ensures buffer[bufferStart..bufferStart + HEADER] == Header(payloadLength, old(sequenceId))
      ensures buffer[bufferStart + HEADER..] == old(buffer[bufferStart + HEADER..])
    {
      hide LE, Low8;
      var header := payloadLength + 0x100_0000 * Low8(sequenceId);
      sequenceId := sequenceId + 1;
      Put(buffer, bufferStart, LE(header, 4));
      HeaderWord(payloadLength, old(sequenceId));
    }

    /** Finishes the packet and sends everything. */
    method Send()
      requires Open()
      modifies this, buffer
      ensures Valid() && bufferStart == bufferEnd == 0 && commandStarts == []
      ensures sent == old(FinishedWith([])) && sequenceId == old(sequenceId) + 1
    {
      hide Unpack, Lawful, Frames;
      SetHeader(bufferEnd - bufferStart - HEADER);
      var n := bufferEnd;
      HeaderCompletes(sent, old(buffer[..]), buffer[..], bufferStart, bufferEnd, old(sequenceId));
      assert old(FinishedWith([])) == sent + buffer[..n];
      bufferStart := 0;
      bufferEnd := 0;
      SendPackets(n);
    }

    // ----- Long data -----

    /** Fills in the header, and sends everything up to the end of what is written. */
    method Flush(payloadLength: nat)
      requires Open() && payloadLength <= MAX
      modifies this`sequenceId, this`wire, this`sent, this`compressedSeqId, this`commandStarts, buffer
      ensures WireOk() && commandStarts == [] && sequenceId == old(sequenceId) + 1
      ensures sent == old(Committed()) + Header(payloadLength, old(sequenceId)) + old(Current())
    {
      hide Unpack, Lawful, Header, Layout, Tiles, CommandsApart, Packed, IdAfter;
      SetHeader(payloadLength);
      FlushedBytes(sent, old(buffer[..]), buffer[..], bufferStart, bufferEnd, Header(payloadLength, old(sequenceId)));
      assert Increasing(commandStarts, 0, bufferEnd);
      SendPackets(bufferEnd);
    }

    /** The packet in the buffer is complete: it waits there for more commands, or is sent. */
    method FinishInBuffer(canWait: bool) returns (waiting: bool)
      requires Open()
      modifies this, buffer
      ensures waiting == (canWait && old(bufferEnd) + PRELUDE <= buffer.Length)
      ensures waiting ==> Open() && FinishedWith([]) == old(FinishedWith([])) && bufferEnd == old(bufferEnd)
      ensures !waiting ==> Valid() && bufferStart == bufferEnd == 0 && sent == old(FinishedWith([]))
    {
      hide Unpack, Lawful, Frames;
      waiting := canWait && bufferEnd + PRELUDE <= buffer.Length;
      if !waiting {
        Send();
      }
    }

    /** Sends the current packet part, and as much data as makes a full packet. */
    method SendFullPacket(data: array<byte>, from: nat, ghost rest: seq<byte>) returns (dataChunkLen: nat)
      requires Open() && data != buffer && from + |rest| <= data.Length && data[from..from + |rest|] == rest
      requires bufferEnd - bufferStart - HEADER + |rest| >= MAX
      modifies this, buffer
      ensures Open() && bufferStart == 0 && bufferEnd == HEADER
      ensures dataChunkLen == MAX - (old(bufferEnd) - old(bufferStart) - HEADER)
      ensures FinishedWith(rest[dataChunkLen..]) == old(FinishedWith(rest))
    {
      hide Unpack, Lawful, Frames, Header, Layout, Tiles, CommandsApart, Packed, IdAfter;
      dataChunkLen := MAX - (bufferEnd - bufferStart - HEADER);
      ghost var committed, cur, id := Committed(), Current(), sequenceId;
      Flush(MAX);
      assert data[from..from + dataChunkLen] == rest[..dataChunkLen];
      SendData(data, from, dataChunkLen);
      bufferStart := 0;
      bufferEnd := HEADER;
      FullPacketSent(committed, cur, rest, id, dataChunkLen, sent);
      NothingWritten(sent, buffer[..0], buffer[HEADER..HEADER], rest[dataChunkLen..], sequenceId);
    }

    /** The last packet: in the buffer if it fits, otherwise sent right away. */
    method SendLastPacket(data: array<byte>, from: nat, len: nat, canWait: bool) returns (waiting: bool)
      requires Open() && data != buffer && from + len <= data.Length
      requires bufferEnd - bufferStart - HEADER + len < MAX
      modifies this, buffer
      ensures Valid()
      ensures waiting <==>
        || Waits(canWait, old(bufferStart), old(bufferEnd), len)
        || DefersTail(canWait, old(bufferStart), old(bufferEnd), len)
      ensures Waits(canWait, old(bufferStart), old(bufferEnd), len) ==>
        bufferEnd == EndAfter(old(bufferStart), old(bufferEnd), len)
      ensures !waiting ==> bufferStart == bufferEnd == 0 && sent == old(FinishedWith(data[from..from + len]))
      ensures waiting && !DefersTail(canWait, old(bufferStart), old(bufferEnd), len) ==>
        Open() && FinishedWith([]) == old(FinishedWith(data[from..from + len])) && bufferEnd + PRELUDE <= buffer.Length
      ensures DefersTail(canWait, old(bufferStart), old(bufferEnd), len) ==>
        waiting && bufferStart == bufferEnd == len
          && sent + data[from..from + len] == old(FinishedWith(data[from..from + len]))
    {
      hide Unpack, Lawful, Frames, Header, Layout, Tiles, CommandsApart, Packed, IdAfter;
      ghost var rest := data[from..from + len];
      ghost var committed, cur, id := Committed(), Current(), sequenceId;
      var packetSizeRemaining := bufferEnd - bufferStart - HEADER + len;
      // if previous packets + header + payload can fit the buffer
      if bufferStart + HEADER + packetSizeRemaining <= buffer.Length {
        WriteBytes(data[from..from + len]);
        assert Current() + [] == cur + rest;
        waiting := FinishInBuffer(canWait);
      } else {
        LastPacketSent(committed, cur, rest, id);
        Flush(packetSizeRemaining);
        if canWait && alg == Plain && len + PRELUDE <= buffer.Length {
          Put(buffer, 0, data[from..from + len]);
          bufferStart := len;
          bufferEnd := len;
          waiting := true;
        } else {
          SendData(data, from, len);
          bufferStart := 0;
          bufferEnd := 0;
          waiting := false;
        }
      }
    }

    /** Appends long data to the packet, and sends it, cut to packets of the maximum size. A complete packet can be
        left in the buffer (`waiting`), to be sent together with the next one. */
    method SendBytes(data: array<byte>, off: nat, len: nat, canWait: bool) returns (waiting: bool)
      requires Open() && data != buffer && off + len <= data.Length
      modifies this, buffer
      ensures Valid()
      ensures waiting <==>
        || Waits(canWait, old(bufferStart), old(bufferEnd), len)
        || DefersTail(canWait, old(bufferStart), old(bufferEnd), len)
      ensures Waits(canWait, old(bufferStart), old(bufferEnd), len) ==>
        bufferEnd == EndAfter(old(bufferStart), old(bufferEnd), len)
      ensures !waiting ==> bufferStart == bufferEnd == 0 && sent == old(FinishedWith(data[off..off + len]))
      ensures waiting && !DefersTail(canWait, old(bufferStart), old(bufferEnd), len) ==>
        Open() && FinishedWith([]) == old(FinishedWith(data[off..off + len])) && bufferEnd + PRELUDE <= buffer.Length
      ensures DefersTail(canWait, old(bufferStart), old(bufferEnd), len) ==>
        waiting && bufferStart == bufferEnd == len
          && sent + data[off..off + len] == old(FinishedWith(data[off..off + len]))
    {
      hide Unpack, Lawful, Frames, Header, Layout, Tiles, CommandsApart, Packed, IdAfter, EndAfter;
      ghost var whole := data[off..off + len];
      var pos := 0;
      var packetSizeRemaining := bufferEnd - bufferStart - HEADER + len;
      assert whole[0..] == whole;
      while packetSizeRemaining >= MAX
        invariant Open() && pos <= len && data[off..off + len] == whole
        invariant packetSizeRemaining == bufferEnd - bufferStart - HEADER + len - pos
        invariant EndAfter(bufferStart, bufferEnd, len - pos) == EndAfter(old(bufferStart), old(bufferEnd), len)
        invariant FinishedWith(whole[pos..]) == old(FinishedWith(data[off..off + len]))
        invariant pos == 0 ==> bufferStart == old(bufferStart) && bufferEnd == old(bufferEnd)
        invariant pos > 0 ==>
          bufferStart == 0 && bufferEnd == HEADER && old(bufferEnd) - old(bufferStart) - HEADER + len >= MAX
        decreases packetSizeRemaining
      {
        assert data[off + pos..off + len] == whole[pos..];
        EndAfterCut(bufferStart, bufferEnd, len - pos, MAX - (bufferEnd - bufferStart - HEADER));
        var dataChunkLen := SendFullPacket(data, off + pos, whole[pos..]);
        assert whole[pos..][dataChunkLen..] == whole[pos + dataChunkLen..];
        pos := pos + dataChunkLen;
        packetSizeRemaining := len - pos;
      }
      assert data[off + pos..off + len] == whole[pos..];
      waiting := SendLastPacket(data, off + pos, len - pos, canWait);
      assert pos == 0 ==> whole[pos..] == whole;
    }

    /** When the complete packet waits in the buffer, behind at least the reserve. */
    predicate Waits(canWait: bool, start: nat, end: nat, len: nat)
      requires start + HEADER <= end
    {
      canWait && EndAfter(start, end, len) + PRELUDE <= buffer.Length
    }

    /** When a tail of the data is left in the buffer that is not behind a packet header: the packet does not fit the
        buffer, but its data alone does. */
    predicate DefersTail(canWait: bool, start: nat, end: nat, len: nat) {
      canWait && alg == Plain && end - start - HEADER + len < MAX && end + len > buffer.Length
        && len + PRELUDE <= buffer.Length
    }

    /** A string that is known to fit. */
    method WriteShortString(str: Utf8.Str)
      requires Open() && bufferEnd + |Utf8.Encode(str)| <= buffer.Length
      modifies this`bufferEnd, buffer
      ensures Open() && Current() == old(Current()) + Utf8.Encode(str)
        && bufferEnd == old(bufferEnd) + |Utf8.Encode(str)|
      ensures Committed() == old(Committed())
    {
      hide Unpack, Lawful, Frames, Utf8.Encode, Utf8.Fits, Utf8.First;
      var read, written := EncodeInto(str, buffer, bufferEnd, buffer.Length);
      assert str[..read] == str;
      bufferEnd := bufferEnd + written;
      assert buffer[..bufferStart] == old(buffer[..bufferStart]);
    }

    /** The bytes of a string that are not sent yet: the tail of a divided character, and the rest of the string. */
    ghost function Unsent(carry: array<byte>, carryStart: nat, carryEnd: nat, str: Utf8.Str): seq<byte>
      requires carryStart <= carryEnd <= carry.Length
      reads carry
    {
      carry[carryStart..carryEnd] + Utf8.Encode(str)
    }

    /** Sends the next bytes of a string, at most `room`: the carried tail, or whole characters that fit,
        or else the part of the next character that does, carrying the tail. */
    method SendStringPart(carry: array<byte>, carryStart: nat, carryEnd: nat, str: Utf8.Str, room: nat)
      returns (len: nat, carryStart': nat, carryEnd': nat, str': Utf8.Str)
      requires WireOk() && carry != buffer && carry.Length == 4 && carryStart <= carryEnd <= 4
      requires 0 < room <= |Unsent(carry, carryStart, carryEnd, str)|
      requires carryEnd > carryStart ==> room >= 4
      modifies this`wire, this`sent, this`compressedSeqId, buffer, carry
      ensures WireOk() && carryStart' <= carryEnd' <= 4
      ensures 1 <= len <= room && len <= |old(Unsent(carry, carryStart, carryEnd, str))|
      ensures sent == old(sent) + old(Unsent(carry, carryStart, carryEnd, str))[..len]
      ensures Unsent(carry, carryStart', carryEnd', str') == old(Unsent(carry, carryStart, carryEnd, str))[len..]
      ensures carryEnd' > carryStart' ==> len == room
    {
      hide Unpack, Lawful, Layout, Tiles, CommandsApart, Packed, IdAfter, Utf8.Encode, Utf8.Fits, Utf8.First,
        Utf8.Units;
      if carryEnd > carryStart {
        // first what the last packet left over of a character
        SendData(carry, carryStart, carryEnd - carryStart);
        len, carryStart', carryEnd', str' := carryEnd - carryStart, carryEnd, carryEnd, str;
      } else {
        var to := if room < buffer.Length then room else buffer.Length;
        var read, written := EncodeInto(str, buffer, 0, to);
        if written > 0 {
          SendData(buffer, 0, written);
          len, carryStart', carryEnd', str' := written, carryStart, carryEnd, str[read..];
        } else {
          // not even one character fits: it is cut
          assert Utf8.Encode([]) == [] by { Utf8.FitsAll([], 0); }
          var units := Utf8.Units(str);
          Utf8.FirstAlone(str);
          Utf8.FitsAll(str[..units], 4);
          var _, charLen := EncodeInto(str[..units], carry, 0, 4);
          assert str[..units][..units] == str[..units];
          SendData(carry, 0, room);
          len, carryStart', carryEnd', str' := room, room, charLen, str[units..];
          SplitSplit(Utf8.First(str), Utf8.Encode(str'), room);
        }
      }
    }

    /** Fills the current packet: exactly `room` bytes of the string. */
    method SendStringChunk(carry: array<byte>, carryStart: nat, carryEnd: nat, str: Utf8.Str, room: nat)
      returns (carryStart': nat, carryEnd': nat, str': Utf8.Str)
      requires WireOk() && carry != buffer && carry.Length == 4 && carryStart <= carryEnd <= 4
      requires room <= |Unsent(carry, carryStart, carryEnd, str)|
      requires carryEnd > carryStart ==> room >= 4
      modifies this`wire, this`sent, this`compressedSeqId, buffer, carry
      ensures WireOk() && carryStart' <= carryEnd' <= 4
      ensures sent == old(sent) + old(Unsent(carry, carryStart, carryEnd, str))[..room]
      ensures Unsent(carry, carryStart', carryEnd', str') == old(Unsent(carry, carryStart, carryEnd, str))[room..]
    {
      hide Unpack, Lawful, Layout, Tiles, CommandsApart, Packed, IdAfter, Utf8.Encode, Utf8.Fits, Utf8.First,
        Utf8.Units, Unsent;
      ghost var whole := Unsent(carry, carryStart, carryEnd, str);
      carryStart', carryEnd', str' := carryStart, carryEnd, str;
      var dataChunkLen := room;
      ghost var done := 0;
      assert whole[0..] == whole && sent + whole[..0] == sent;
      while dataChunkLen > 0
        invariant WireOk() && carryStart' <= carryEnd' <= 4 && done + dataChunkLen == room
        invariant sent == old(sent) + whole[..done]
        invariant Unsent(carry, carryStart', carryEnd', str') == whole[done..]
        invariant carryEnd' > carryStart' ==> dataChunkLen == 0 || dataChunkLen >= 4
      {
        var len;
        len, carryStart', carryEnd', str' := SendStringPart(carry, carryStart', carryEnd', str', dataChunkLen);
        TakeMore(old(sent), whole, done, len);
        done := done + len;
        dataChunkLen := dataChunkLen - len;
      }
    }

    /** The last, short packet of a long string. */
    method SendStringTail(carry: array<byte>, carryStart: nat, carryEnd: nat, str: Utf8.Str, len: nat, canWait: bool)
      returns (waiting: bool)
      requires Open() && carry != buffer && carry.Length == 4 && carryStart <= carryEnd <= 4
      requires len == |Unsent(carry, carryStart, carryEnd, str)|
      requires bufferEnd - bufferStart - HEADER + len < MAX
      modifies this, buffer
      ensures Valid() && (waiting <==> Waits(canWait, old(bufferStart), old(bufferEnd), len))
      ensures waiting ==> bufferEnd == EndAfter(old(bufferStart), old(bufferEnd), len)
      ensures !waiting ==>
        bufferStart == bufferEnd == 0 && sent == old(FinishedWith(Unsent(carry, carryStart, carryEnd, str)))
      ensures waiting ==> Open() && bufferEnd + PRELUDE <= buffer.Length
      ensures waiting ==> FinishedWith([]) == old(FinishedWith(Unsent(carry, carryStart, carryEnd, str)))
    {
      hide Unpack, Lawful, Frames, Header, Layout, Tiles, CommandsApart, Packed, IdAfter, Utf8.Encode, Utf8.Fits,
        Utf8.First, Utf8.Units;
      var packetSizeRemaining := bufferEnd - bufferStart - HEADER + len;
      // if previous packets + header + payload can fit the buffer
      if bufferStart + HEADER + packetSizeRemaining <= buffer.Length {
        ghost var cur := Current();
        if carryEnd > carryStart {
          WriteBytes(carry[carryStart..carryEnd]);
        }
        assert Current() == cur + carry[carryStart..carryEnd];
        WriteShortString(str);
        assert Current() + [] == cur + Unsent(carry, carryStart, carryEnd, str);
        waiting := FinishInBuffer(canWait);
      } else {
        FlushStringTail(carry, carryStart, carryEnd, str, len);
        waiting := false;
      }
    }

    /** The last packet does not fit the buffer with what is there: that goes first. */
    method FlushStringTail(carry: array<byte>, carryStart: nat, carryEnd: nat, str: Utf8.Str, len: nat)
      requires Open() && carry != buffer && carry.Length == 4 && carryStart <= carryEnd <= 4
      requires len == |Unsent(carry, carryStart, carryEnd, str)|
      requires bufferEnd - bufferStart - HEADER + len < MAX
      modifies this, buffer
      ensures Valid() && bufferStart == bufferEnd == 0
      ensures sent == old(FinishedWith(Unsent(carry, carryStart, carryEnd, str)))
    {
      hide Unpack, Lawful, Frames, Header, Layout, Tiles, CommandsApart, Packed, IdAfter, Utf8.Encode, Utf8.Fits,
        Utf8.First, Utf8.Units;
      LastPacketSent(Committed(), Current(), Unsent(carry, carryStart, carryEnd, str), sequenceId);
      var dataLength := len;
      Flush(bufferEnd - bufferStart - HEADER + len);
      ghost var before := sent;
      if carryEnd > carryStart {
        dataLength := dataLength - (carryEnd - carryStart);
        SendData(carry, carryStart, carryEnd - carryStart);
      }
      assert sent == before + carry[carryStart..carryEnd];
      SendWholeString(str, dataLength);
      ConcatAssoc(before, carry[carryStart..carryEnd], Utf8.Encode(str));
      bufferStart := 0;
      bufferEnd := 0;
    }

    /** All of a string, through the buffer. */
    method SendWholeString(str: Utf8.Str, len: nat)
      requires WireOk() && len == |Utf8.Encode(str)|
      modifies this`wire, this`sent, this`compressedSeqId, buffer
      ensures WireOk() && sent == old(sent) + Utf8.Encode(str)
    {
      hide Unpack, Lawful, Layout, Tiles, CommandsApart, Packed, IdAfter, Utf8.Encode, Utf8.Fits, Utf8.First,
        Utf8.Units;
      ghost var whole := Utf8.Encode(str);
      var data := str;
      var dataLength := len;
      ghost var done := 0;
      assert whole[0..] == whole && sent + whole[..0] == sent;
      while dataLength > 0
        invariant WireOk() && 0 <= dataLength && done + dataLength == len
        invariant sent == old(sent) + whole[..done] && Utf8.Encode(data) == whole[done..]
      {
        Utf8.FirstFits(data);
        var read, written := EncodeInto(data, buffer, 0, if dataLength < buffer.Length then dataLength
          else buffer.Length);
        SendData(buffer, 0, written);
        assert Utf8.Encode(data[..read]) == whole[done..][..written];
        TakeMore(old(sent), whole, done, written);
        data := data[read..];
        done := done + written;
        dataLength := dataLength - written;
      }
    }

    /**
     Appends a string to the packet, and sends it, cut to packets of the maximum size, or leaves it in the buffer
     (`waiting`).
     */
    method SendString(str: Utf8.Str, canWait: bool) returns (waiting: bool)
      requires Open()
      modifies this, buffer
      ensures Valid() && (waiting <==> Waits(canWait, old(bufferStart), old(bufferEnd), |Utf8.Encode(str)|))
      ensures waiting ==> bufferEnd == EndAfter(old(bufferStart), old(bufferEnd), |Utf8.Encode(str)|)
      ensures !waiting ==> bufferStart == bufferEnd == 0 && sent == old(FinishedWith(Utf8.Encode(str)))
      ensures waiting ==>
        Open() && FinishedWith([]) == old(FinishedWith(Utf8.Encode(str))) && bufferEnd + PRELUDE <= buffer.Length
    {
      hide Unpack, Lawful, Frames, Header, Utf8.Encode, Utf8.Fits;
      Utf8.EncodeBounds(str);
      var dataLength := |str| * 4;
      if bufferEnd + dataLength > buffer.Length {
        dataLength := Utf8.Utf8StringLength(str);
      }
      if bufferEnd + dataLength <= buffer.Length {
        ghost var cur := Current();
        WriteShortString(str);
        assert Current() + [] == cur + Utf8.Encode(str);
        waiting := FinishInBuffer(canWait);
      } else {
        waiting := SendLongString(str, dataLength, canWait);
      }
    }

    /** A packet of the maximum size: the part of it in the buffer, and the next bytes of the string. */
    method SendStringPacket(carry: array<byte>, carryStart: nat, carryEnd: nat, str: Utf8.Str, len: nat)
      returns (carryStart': nat, carryEnd': nat, str': Utf8.Str, len': nat)
      requires Open() && carry != buffer && carry.Length == 4 && carryStart <= carryEnd <= 4
      requires len == |Unsent(carry, carryStart, carryEnd, str)| && bufferEnd - bufferStart - HEADER + len >= MAX
      requires carryEnd > carryStart ==> bufferEnd == bufferStart + HEADER
      modifies this, buffer, carry
      ensures Open() && bufferStart == 0 && bufferEnd == HEADER && carryStart' <= carryEnd' <= 4
      ensures len' == |Unsent(carry, carryStart', carryEnd', str')|
        && len' == len - (MAX - (old(bufferEnd) - old(bufferStart) - HEADER))
      ensures FinishedWith(Unsent(carry, carryStart', carryEnd', str')) ==
        old(FinishedWith(Unsent(carry, carryStart, carryEnd, str)))
    {
      hide Unpack, Lawful, Frames, Header, Layout, Tiles, CommandsApart, Packed, IdAfter, Utf8.Encode, Utf8.Fits,
        Unsent;
      // send current packet part + data chunk = MAX
      ghost var committed, cur, id, rest := Committed(), Current(), sequenceId,
        Unsent(carry, carryStart, carryEnd, str);
      Flush(MAX);
      var dataChunkLen := MAX - (bufferEnd - bufferStart - HEADER);
      carryStart', carryEnd', str' := SendStringChunk(carry, carryStart, carryEnd, str, dataChunkLen);
      len' := len - dataChunkLen;
      bufferStart := 0;
      bufferEnd := HEADER;
      FullPacketSent(committed, cur, rest, id, dataChunkLen, sent);
      NothingWritten(sent, buffer[..0], buffer[HEADER..HEADER], rest[dataChunkLen..], sequenceId);
    }

    method SendLongString(str: Utf8.Str, length: nat, canWait: bool) returns (waiting: bool)
      requires Open() && length == |Utf8.Encode(str)|
      modifies this, buffer
      ensures Valid() && (waiting <==> Waits(canWait, old(bufferStart), old(bufferEnd), |Utf8.Encode(str)|))
      ensures waiting ==> bufferEnd == EndAfter(old(bufferStart), old(bufferEnd), |Utf8.Encode(str)|)
      ensures !waiting ==> bufferStart == bufferEnd == 0 && sent == old(FinishedWith(Utf8.Encode(str)))
      ensures waiting ==>
        Open() && FinishedWith([]) == old(FinishedWith(Utf8.Encode(str))) && bufferEnd + PRELUDE <= buffer.Length
    {
      hide Unpack, Lawful, Frames, Header, Layout, Tiles, CommandsApart, Packed, IdAfter, Utf8.Encode, Utf8.Fits;
      ghost var goal := FinishedWith(Utf8.Encode(str));
      var carry := new byte[4];
      var carryStart: nat, carryEnd: nat := 0, 0;
      var data: Utf8.Str, dataLength: nat := str, length;
      assert Unsent(carry, 0, 0, str) == Utf8.Encode(str);
      var packetSizeRemaining := bufferEnd - bufferStart - HEADER + dataLength;
      while packetSizeRemaining >= MAX
        invariant Open() && carryStart <= carryEnd <= 4
        invariant dataLength == |Unsent(carry, carryStart, carryEnd, data)|
        invariant packetSizeRemaining == bufferEnd - bufferStart - HEADER + dataLength
        invariant carryEnd > carryStart ==> bufferEnd == bufferStart + HEADER
        invariant EndAfter(bufferStart, bufferEnd, dataLength) == EndAfter(old(bufferStart), old(bufferEnd), length)
        invariant FinishedWith(Unsent(carry, carryStart, carryEnd, data)) == goal
        decreases packetSizeRemaining
      {
        carryStart, carryEnd, data, dataLength := SendStringPacket(carry, carryStart, carryEnd, data, dataLength);
        packetSizeRemaining := dataLength;
      }
      waiting := SendStringTail(carry, carryStart, carryEnd, data, dataLength, canWait);
    }

    // ----- Giving bytes to the connection -----

    method SendPackets(end: nat)
      requires WireOk() && end <= buffer.Length
      requires Increasing(commandStarts, 0, end) && (alg == Plain ==> commandStarts == [])
      modifies this`wire, this`sent, this`compressedSeqId, this`commandStarts, buffer
      ensures WireOk() && commandStarts == []
      ensures sent == old(sent) + old(buffer[..end])
      ensures buffer[..end] == old(buffer[..end])
      ensures alg != Plain ==> // each command begins its own compressed packet
        && var ps := Layout(old(commandStarts), 0, end, old(compressedSeqId));
        && Tiles(ps, 0, end) && CommandsApart(ps, old(commandStarts), old(compressedSeqId))
        && wire == old(wire) + Packed(codec, old(buffer[..end]), ps, 0)
        && compressedSeqId == IdAfter(ps, old(compressedSeqId))
    {
      hide Unpack, Lawful, Layout, Tiles, CommandsApart, Packed, IdAfter, Increasing;
      if alg == Plain {
        wire := wire + buffer[..end];
        sent := sent + buffer[..end];
      } else {
        var out, from, to := ToCompressedPackets(buffer, 0, end, commandStarts);
        assert old(buffer[0..end]) == old(buffer[..end]) && buffer[0..end] == buffer[..end];
        ghost var id := old(compressedSeqId);
        LayoutKeepsCommandsApart(commandStarts, 0, end, id);
        Deliver(out[from..to], buffer[..end], Layout(commandStarts, 0, end, id), id);
        commandStarts := [];
        wire := wire + out[from..to];
      }
    }

    /** The bytes of a payload continuation. In the compressed protocol they are wrapped in the buffer, over its content
        (unless they are in the buffer themselves). */
    method SendData(data: array<byte>, off: nat, len: nat)
      requires WireOk() && off + len <= data.Length
      modifies this`wire, this`sent, this`compressedSeqId, buffer
      ensures WireOk()
      ensures sent == old(sent) + old(data[off..off + len])
      ensures data == buffer ==> buffer[..off + len] == old(buffer[..off + len])
      ensures alg != Plain ==>
        && var ps := Layout([], 0, len, old(compressedSeqId));
        && Tiles(ps, 0, len) && CommandsApart(ps, [], old(compressedSeqId))
        && wire == old(wire) + Packed(codec, old(data[off..off + len]), ps, 0)
        && compressedSeqId == IdAfter(ps, old(compressedSeqId))
    {
      hide Unpack, Lawful, Layout, Tiles, CommandsApart, Packed, IdAfter;
      if alg == Plain {
        wire := wire + data[off..off + len];
        sent := sent + data[off..off + len];
      } else {
        var out, from, to := ToCompressedPackets(data, off, len, []);
        ghost var id := old(compressedSeqId);
        LayoutKeepsCommandsApart([], 0, len, id);
        Deliver(out[from..to], old(data[off..off + len]), Layout([], 0, len, id), id);
        wire := wire + out[from..to];
      }
    }

    /** The compressed packets about to be written carry the data. */
    ghost method Deliver(chunk: seq<byte>, data: seq<byte>, ps: seq<CPacket>, id: byte)
      requires WireOk() && alg != Plain
      requires Tiles(ps, 0, |data|) && chunk == Packed(codec, data, ps, 0)
      modifies this`sent
      ensures sent == old(sent) + data
      ensures Unpack(codec, wire + chunk, 0).clean && Unpack(codec, wire + chunk, 0).data == sent
    {
      var before := Unpack(codec, wire, 0).id;
      UnpackJoins(codec, wire, chunk, 0);
      UnpackPacked(codec, alg, data, ps, 0, [], before);
      assert chunk + [] == chunk && data[0..] == data && data + [] == data;
      sent := sent + data;
    }

    /** Compresses `view[off..off+len)` to `out` at `at`, and returns how many bytes that took. */
    method CompressInto(out: array<byte>, at: nat, view: array<byte>, off: nat, len: nat) returns (n: nat)
      requires Lawful(codec, alg)
      requires off + len <= view.Length && at + Bound(alg, len) + 1 <= out.Length
      modifies out
      ensures n == |codec.compress(old(view[off..off + len]))| <= Bound(alg, len)
      ensures out[..at] == old(out[..at])
      ensures out[at..at + n] == codec.compress(old(view[off..off + len]))
    {
      var part := view[off..off + len];
      var data := codec.compress(part);
      assert codec.decompress(codec.compress(part)) == Some(part);
      n := |data|;
      Put(out, at, data);
    }

    /** The payload of a compressed packet at `at`: compressed if that makes it shorter. */
    method PutPayload(out: array<byte>, at: nat, view: array<byte>, off: nat, len: nat)
      returns (dataLen: nat, uncompressedLen: nat)
      requires Lawful(codec, alg)
      requires off + len <= view.Length && at + Bound(alg, len) + 1 <= out.Length
      requires view == out ==> off + len <= at
      modifies out
      ensures out[..at] == old(out[..at]) && dataLen <= len && dataLen <= Bound(alg, len)
      ensures var part := old(view[off..off + len]);
        var c := codec.compress(part);
        if len >= MIN_COMPRESS && |c| < len then dataLen == |c| && uncompressedLen == len && out[at..at + dataLen] == c
        else dataLen == len && uncompressedLen == 0 && out[at..at + dataLen] == part
    {
      assert len <= Bound(alg, len);
      hide Lawful, Bound;
      ghost var was := out[..];
      dataLen := len;
      uncompressedLen := 0;
      if len >= MIN_COMPRESS {
        var compressedLen := CompressInto(out, at, view, off, len);
        if compressedLen < len {
          dataLen := compressedLen;
          uncompressedLen := len;
        }
      }
      if view == out {
        SlicesOfPrefix(out[..], was, off, off + len, at);
      }
      assert view[off..off + len] == old(view[off..off + len]);
      if uncompressedLen == 0 {
        Put(out, at, view[off..off + len]); // verbatim, over the compression attempt
      }
    }

    /** One compressed packet at `outPos`: header and payload. */
    method PackOne(out: array<byte>, outPos: nat, view: array<byte>, off: nat, len: nat, id: byte) returns (next: nat)
      requires Lawful(codec, alg)
      requires off + len <= view.Length && 0 < len <= MAX_PAYLOAD
      requires outPos + HEADER_LEN + Bound(alg, len) + 1 <= out.Length
      requires view == out ==> off + len <= outPos
      modifies out
      ensures outPos < next <= outPos + HEADER_LEN + Bound(alg, len)
      ensures next <= out.Length && out[..outPos] == old(out[..outPos])
      ensures out[outPos..next] == PacketBytes(codec, id, old(view[off..off + len]))
    {
      hide Lawful, Bound, LE;
      var dataPos := outPos + HEADER_LEN;
      var dataLen, uncompressedLen := PutPayload(out, dataPos, view, off, len);
      assert out[..outPos] == out[..dataPos][..outPos] && old(out[..outPos]) == old(out[..dataPos])[..outPos];
      ghost var body, tail := out[dataPos..dataPos + dataLen], out[dataPos..];
      assert body == tail[..dataLen];
      PacketHeader(dataLen, id, uncompressedLen);
      Put(out, outPos,
          [dataLen % 0x100, dataLen / 0x100 % 0x100, Low8(dataLen / 0x1_0000), id,
           uncompressedLen % 0x100, uncompressedLen / 0x100 % 0x100, Low8(uncompressedLen / 0x1_0000)]);
      next := dataPos + dataLen;
      assert out[dataPos..] == tail;
      assert out[dataPos..next] == tail[..dataLen];
      assert out[outPos..next] == out[outPos..dataPos] + body;
      assert out[outPos..dataPos] == LE(dataLen, 3) + [id] + LE(uncompressedLen, 3);
    }

    lemma PacketHeader(n: nat, id: byte, m: nat)
      ensures [n % 0x100, n / 0x100 % 0x100, Low8(n / 0x1_0000), id, m % 0x100, m / 0x100 % 0x100, Low8(m / 0x1_0000)]
           == LE(n, 3) + [id] + LE(m, 3)
    {
      LEUnroll(n);
      LEUnroll(m);
    }

    /** One step of the loop over a part: the packet of `[pos..cut)`. */
    method PackStep(out: array<byte>, start: nat, outPos: nat, view: array<byte>, off: nat, pos: nat, cut: nat,
        id: byte, ghost data: seq<byte>) returns (next: nat)
      requires Lawful(codec, alg) && off + |data| <= view.Length && view[off..off + |data|] == data
      requires pos < cut <= |data| && cut - pos <= MAX_PAYLOAD
      requires start <= outPos && outPos + HEADER_LEN + Bound(alg, cut - pos) + 1 <= out.Length
      requires view == out ==> off + |data| <= start
      modifies out
      ensures outPos < next <= outPos + HEADER_LEN + Bound(alg, cut - pos) && next <= out.Length
      ensures out[..start] == old(out[..start]) && view[off..off + |data|] == data
      ensures out[start..next] == old(out[start..outPos]) + PacketBytes(codec, id, data[pos..cut])
    {
      hide Lawful, Bound, PacketBytes;
      assert view[off + pos..off + cut] == data[pos..cut] by {
        SliceSlice(view[..], off, off + |data|, pos, cut);
      }
      ghost var was := out[..];
      next := PackOne(out, outPos, view, off + pos, cut - pos, id);
      KeepsPrefix(was, out[..], outPos, next, start, off, |data|, view == out);
    }

    /** The compressed packets of `[from..to)`, which holds bytes of one command, or continues a payload. */
    method PackPart(out: array<byte>, writeAt: nat, start: nat, view: array<byte>, off: nat, ghost goal: Goal,
                    i: nat, from: nat, to: nat, firstId: byte, ghost before: seq<byte>)
      returns (outPos: nat, id: byte, ghost written: seq<byte>)
      requires Lawful(codec, alg) && off + |goal.data| <= view.Length && view[off..off + |goal.data|] == goal.data
      requires i <= |goal.starts| && from < to == goal.To(i) <= |goal.data|
      requires writeAt <= start <= out.Length && (view == out ==> off + |goal.data| <= writeAt)
      requires out.Length - start >= RoomLeft(alg, goal.starts, i, from, |goal.data|)
      requires goal.codec == codec && out[writeAt..start] == before && goal.Progress(i, from, firstId, firstId, before)
      modifies out
      ensures start < outPos <= out.Length && out[..writeAt] == old(out[..writeAt])
      ensures view[off..off + |goal.data|] == goal.data
      ensures out.Length - outPos >= RoomLeft(alg, goal.starts, i + 1, to, |goal.data|)
      ensures out[writeAt..outPos] == written && goal.Progress(i, to, id, id, written)
    {
      hide Goal.Progress, RoomLeft, Lawful, Bound;
      outPos, id, written := start, firstId, before;
      var pos := from;
      while pos < to
        invariant from <= pos <= to && start <= outPos <= out.Length && (pos > from ==> start < outPos)
        invariant out[..writeAt] == old(out[..writeAt]) && view[off..off + |goal.data|] == goal.data
        invariant out.Length - outPos >= RoomLeft(alg, goal.starts, if pos < to then i else i + 1, pos, |goal.data|)
        invariant out[writeAt..outPos] == written && goal.Progress(i, pos, id, id, written)
      {
        var cut := Cut(pos, to);
        RoomForPart(alg, goal.starts, i, pos, cut, to, |goal.data|);
        goal.Step(i, pos, id, written);
        written := written + PacketBytes(codec, id, goal.data[pos..cut]);
        var next := PackStep(out, writeAt, outPos, view, off, pos, cut, id, goal.data);
        outPos, pos, id := next, cut, NextId(id);
      }
    }

    /** The compressed packets of all the parts: one for each command, and one before the first command. */
    method PackAll(out: array<byte>, writeAt: nat, view: array<byte>, off: nat, ghost goal: Goal, starts: seq<nat>,
        end: nat) returns (outPos: nat, seqId: byte)
      requires Lawful(codec, alg) && off + end <= view.Length && view[off..off + end] == goal.data
      requires goal.codec == codec && goal.starts == starts && |goal.data| == end && goal.id0 == compressedSeqId
      requires Increasing(starts, 0, end)
      requires writeAt <= out.Length && (view == out ==> off + end <= writeAt)
      requires out.Length - writeAt >= RoomLeft(alg, starts, 0, 0, end)
      modifies out
      ensures writeAt <= outPos <= out.Length && out[..writeAt] == old(out[..writeAt])
      ensures goal.Done(out[writeAt..outPos], seqId)
    {
      hide Goal.Progress, Goal.Done, RoomLeft, Lawful;
      outPos := writeAt;
      var from := 0;
      seqId := compressedSeqId;
      var nextSeqId := seqId;
      var i := 0;
      ghost var written: seq<byte> := [];
      goal.Start();
      while i <= |starts|
        invariant 0 <= i <= |starts| + 1 && from == (if i == 0 then 0 else goal.To(i - 1)) && from <= end
        invariant writeAt <= outPos <= out.Length && out[..writeAt] == old(out[..writeAt])
        invariant view[off..off + end] == goal.data
        invariant out.Length - outPos >= RoomLeft(alg, starts, i, from, end)
        invariant out[writeAt..outPos] == written
        invariant goal.Progress(i, from, nextSeqId, seqId, written)
      {
        var to := if i < |starts| then starts[i] else end;
        if to > from {
          goal.Renumber(i, from, nextSeqId, seqId, written);
          outPos, seqId, written := PackPart(out, writeAt, outPos, view, off, goal, i, from, to, nextSeqId, written);
          from := to;
          nextSeqId := seqId;
        } else {
          RoomShrinks(alg, starts, i, from, end);
        }
        goal.NextCommand(i, from, nextSeqId, seqId, written);
        nextSeqId := 0; // the next part is of another command
        i := i + 1;
      }
      goal.Finish(nextSeqId, seqId, written);
    }

    /** Converts `view[off..off+end)` to compressed packets, after the input if it is in the buffer and there is room,
        or at the beginning of the buffer, or else in a new array. */
    method ToCompressedPackets(view: array<byte>, off: nat, end: nat, starts: seq<nat>)
      returns (out: array<byte>, writeAt: nat, outPos: nat)
      requires WireOk() && alg != Plain && off + end <= view.Length
      requires Increasing(starts, 0, end)
      modifies this`compressedSeqId, buffer
      ensures out == buffer || fresh(out)
      ensures view == buffer ==> buffer[..off + end] == old(buffer[..off + end])
      ensures Tiles(Layout(starts, 0, end, old(compressedSeqId)), 0, end)
      ensures writeAt <= outPos <= out.Length
      ensures out[writeAt..outPos] ==
        Packed(codec, old(view[off..off + end]), Layout(starts, 0, end, old(compressedSeqId)), 0)
      ensures compressedSeqId == IdAfter(Layout(starts, 0, end, old(compressedSeqId)), old(compressedSeqId))
    {
      hide Unpack, Lawful, Layout, Tiles, Packed, IdAfter, Room;
      ghost var goal := Goal(codec, view[off..off + end], starts, compressedSeqId);
      var nParts := |starts| + 1 + end / MAX_PAYLOAD;
      var worstLen := WorstLen(alg, end, nParts);
      out := buffer;
      writeAt := if view == buffer then off + end else 0;
      if out.Length - writeAt < worstLen {
        out := new byte[worstLen];
        writeAt := 0;
      }
      outPos, compressedSeqId := PackAll(out, writeAt, view, off, goal, starts, end);
    }
  }

  /** What the conversion to compressed packets is to produce, and how far it is. */
  datatype Goal = Goal(codec: Codec, data: seq<byte>, starts: seq<nat>, id0: byte)
  {
    /** Where the part with number `i` ends. */
    function To(i: nat): nat
      requires i <= |starts|
    {
      if i < |starts| then starts[i] else |data|
    }

    /** The packets that remain when the loop over the commands is at `i`, and the loop over the bytes at `from`. */
    function Remaining(i: nat, from: nat, id: byte): seq<CPacket>
      requires i <= |starts| + 1
    {
      if i > |starts| then [] else Layout(starts[i..], from, |data|, id)
    }

    ghost predicate Progress(i: nat, from: nat, id: byte, lastId: byte, written: seq<byte>) {
      && i <= |starts| + 1 && from <= |data|
      && Tiles(Remaining(0, 0, id0), 0, |data|)
      && Tiles(Remaining(i, from, id), from, |data|)
      && written + Packed(codec, data, Remaining(i, from, id), from) == Packed(codec, data, Remaining(0, 0, id0), 0)
      && IdAfter(Remaining(0, 0, id0), id0) == IdAfter(Remaining(i, from, id), lastId)
    }

    lemma Start()
      requires Increasing(starts, 0, |data|)
      ensures Progress(0, 0, id0, id0, [])
    {
      assert starts[0..] == starts;
      LayoutTiles(starts, 0, |data|, id0);
      assert [] + Packed(codec, data, Remaining(0, 0, id0), 0) == Packed(codec, data, Remaining(0, 0, id0), 0);
    }

    lemma Step(i: nat, pos: nat, id: byte, written: seq<byte>)
      requires i <= |starts| && Progress(i, pos, id, id, written) && pos < To(i) <= |data|
      ensures var cut := Cut(pos, To(i));
        Progress(i, cut, NextId(id), NextId(id), written + PacketBytes(codec, id, data[pos..cut]))
    {
      var cut := Cut(pos, To(i));
      var rest := Remaining(i, cut, NextId(id));
      assert Remaining(i, pos, id) == [CPacket(id, pos, cut)] + rest;
      ConcatAssoc(written, PacketBytes(codec, id, data[pos..cut]), Packed(codec, data, rest, cut));
    }

    lemma NextCommand(i: nat, from: nat, id: byte, lastId: byte, written: seq<byte>)
      requires i <= |starts| && Progress(i, from, id, lastId, written) && from == To(i)
      ensures Progress(i + 1, from, 0, lastId, written)
    {
      if i < |starts| {
        assert starts[i..][1..] == starts[i + 1..];
      }
    }

    /** The number of the last packet does not matter while packets remain. */
    lemma Renumber(i: nat, from: nat, id: byte, lastId: byte, written: seq<byte>)
      requires i <= |starts| && Progress(i, from, id, lastId, written) && from < To(i) <= |data|
      ensures Progress(i, from, id, id, written)
    {
    }

    /** All the packets are written, and the numbering is where they leave it. */
    ghost predicate Done(written: seq<byte>, lastId: byte) {
      && Tiles(Layout(starts, 0, |data|, id0), 0, |data|)
      && written == Packed(codec, data, Layout(starts, 0, |data|, id0), 0)
      && lastId == IdAfter(Layout(starts, 0, |data|, id0), id0)
    }

    lemma Finish(id: byte, lastId: byte, written: seq<byte>)
      requires Progress(|starts| + 1, |data|, id, lastId, written)
      ensures Done(written, lastId)
    {
      assert starts[0..] == starts;
    }
  }

  /** An append beyond `at` keeps the input and the output so far. */
  lemma KeepsPrefix(was: seq<byte>, now: seq<byte>, at: nat, next: nat, start: nat, off: nat, end: nat, same: bool)
    requires start <= at <= next <= |was| == |now| && now[..at] == was[..at]
    ensures now[..start] == was[..start]
    ensures now[start..next] == was[start..at] + now[at..next]
    ensures same && off + end <= start ==>
      now[off..off + end] == was[off..off + end] && now[..off + end] == was[..off + end]
  {
    assert now[..start] == now[..at][..start] && was[..start] == was[..at][..start];
    assert now[start..at] == now[..at][start..] && was[start..at] == was[..at][start..];
    if same && off + end <= start {
      assert now[..off + end] == now[..at][..off + end] && was[..off + end] == was[..at][..off + end];
      assert now[off..off + end] == now[..off + end][off..] && was[off..off + end] == was[..off + end][off..];
    }
  }

  lemma SlicesOfPrefix(a: seq<byte>, b: seq<byte>, from: nat, to: nat, end: nat)
    requires from <= to <= end <= |a| == |b| && a[..end] == b[..end]
    ensures a[from..to] == b[from..to]
  {
    assert a[from..to] == a[..end][from..to];
    assert b[from..to] == b[..end][from..to];
  }

  /** The worst case for what remains: its bytes, in as many packets as it can take. */
  function RoomLeft(alg: Algorithm, starts: seq<nat>, i: nat, from: nat, end: nat): nat
    requires from <= end
  {
    Room(alg, end - from, PartsLeft(|starts|, i, end - from))
  }

  /** Before each part, there is room for it after the header, with the spare byte that the compressors need. */
  lemma RoomForPart(alg: Algorithm, starts: seq<nat>, i: nat, pos: nat, cut: nat, to: nat, end: nat)
    requires i <= |starts| && pos < to <= end && cut == Cut(pos, to)
    ensures RoomLeft(alg, starts, i, pos, end)
         >= HEADER_LEN + Bound(alg, cut - pos) + 1 + RoomLeft(alg, starts, if cut < to then i else i + 1, cut, end)
  {
    hide Room, Bound, Cut, PartsLeft;
    CutBetween(pos, to);
    PartsDecrease(|starts|, i, pos, cut, to, end);
    RoomStep(alg, cut - pos, end - cut, PartsLeft(|starts|, i, end - pos),
      PartsLeft(|starts|, if cut < to then i else i + 1, end - cut));
  }

  lemma RoomStep(alg: Algorithm, a: nat, b: nat, p: nat, p': nat)
    requires p' < p
    ensures Room(alg, a + b, p) >= HEADER_LEN + Bound(alg, a) + 1 + Room(alg, b, p')
  {
    hide Room, Bound;
    RoomSplits(alg, a, b, p);
    RoomMonotone(alg, b, p', p - 1);
  }

  lemma CutBetween(pos: nat, to: nat)
    requires pos < to
    ensures pos < Cut(pos, to) <= to
  {
  }

  lemma RoomShrinks(alg: Algorithm, starts: seq<nat>, i: nat, from: nat, end: nat)
    requires i <= |starts| && from <= end
    ensures RoomLeft(alg, starts, i + 1, from, end) <= RoomLeft(alg, starts, i, from, end)
  {
    RoomMonotone(alg, end - from, PartsLeft(|starts|, i + 1, end - from), PartsLeft(|starts|, i, end - from));
  }

  /** An upper bound on the number of packets that remain. */
  function PartsLeft(n: nat, i: nat, bytes: nat): nat {
    (if i <= n then n - i + 1 else 0) + bytes / MAX_PAYLOAD
  }

  lemma PartsDecrease(n: nat, i: nat, pos: nat, cut: nat, to: nat, end: nat)
    requires i <= n && pos < to <= end && cut == Cut(pos, to)
    ensures PartsLeft(n, if cut < to then i else i + 1, end - cut) < PartsLeft(n, i, end - pos)
  {
  }
}
