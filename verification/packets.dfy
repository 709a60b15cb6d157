/**
 The ordinary packet stream: a logical payload of any length travels as packets of exactly
 `MAX` bytes and a last, shorter (possibly empty) one, each behind a 4-byte header.
 */
module Packets {
  import opened Bytes

  const MAX: nat := 0xFF_FFFF
  const HEADER: nat := 4

  /** 3-byte payload length, 1-byte sequence id. */
  function Header(len: nat, id: int): seq<byte> {
    LE(len, 3) + [Low8(id)]
  }

  function Frames(payload: seq<byte>, id: int): (s: seq<byte>)
    ensures |s| >= HEADER
    decreases |payload|
  {
    if |payload| < MAX then Header(|payload|, id) + payload
    else Header(MAX, id) + payload[..MAX] + Frames(payload[MAX..], id + 1)
  }

  /** How many packets carry a payload of `len` bytes. */
  function Count(len: nat): nat {
    len / MAX + 1
  }

  /** The first full packet, when the payload so far and the data that follows reach its size. */
  lemma FramesCut(cur: seq<byte>, data: seq<byte>, id: int, k: nat)
    requires |cur| + k == MAX && k <= |data|
    ensures Frames(cur + data, id) == Header(MAX, id) + cur + data[..k] + Frames(data[k..], id + 1)
  {
    var payload := cur + data;
    assert payload[..MAX] == cur + data[..k];
    assert payload[MAX..] == data[k..];
    ConcatAssoc(Header(MAX, id), cur, data[..k]);
  }

  // ----- The stream as the reader sees it -----
  //
  // The reader stands inside a packet that declared `len` bytes, `rem` of them still unread, before the stream `s`.
  // `rem` can exceed `len`, when the tail of the previous packet was joined to this one.

  /** The payload that can still be read: to the end of the logical payload, or of the stream if that is cut. */
  function Rest(len: nat, rem: nat, s: seq<byte>): (r: seq<byte>)
    ensures |r| <= |s|
    decreases |s|
  {
    if |s| < rem then s
    else if len != MAX || |s| < rem + HEADER then s[..rem]
    else var next := NextLen(s, rem); s[..rem] + Rest(next, next, s[rem + HEADER..])
  }

  /** The length that the header at `at` declares. */
  function NextLen(s: seq<byte>, at: nat): (n: nat)
    requires at + HEADER <= |s|
    ensures n < 0x100_0000
  {
    Pow256Values();
    FromLE(s[at..at + 3])
  }

  /** The logical payload is all there. */
  predicate Complete(len: nat, rem: nat, s: seq<byte>)
    decreases |s|
  {
    && |s| >= rem
    && (len == MAX ==>
          && |s| >= rem + HEADER
          && Complete(NextLen(s, rem), NextLen(s, rem), s[rem + HEADER..]))
  }

  /** What follows the logical payload. */
  function After(len: nat, rem: nat, s: seq<byte>): seq<byte>
    requires Complete(len, rem, s)
    decreases |s|
  {
    if len != MAX then s[rem..] else After(NextLen(s, rem), NextLen(s, rem), s[rem + HEADER..])
  }

  /** The sequence id of the last packet of the logical payload; `id` is that of the current one. */
  function LastId(len: nat, rem: nat, s: seq<byte>, id: byte): byte
    requires Complete(len, rem, s)
    decreases |s|
  {
    if len != MAX then id else LastId(NextLen(s, rem), NextLen(s, rem), s[rem + HEADER..], s[rem + 3])
  }

  lemma HeaderReadsBack(len: nat, id: int, rest: seq<byte>)
    requires len <= MAX
    ensures |Header(len, id) + rest| >= HEADER && |Header(len, id)| == HEADER
    ensures NextLen(Header(len, id) + rest, 0) == len
    ensures (Header(len, id) + rest)[3] == Low8(id)
    ensures (Header(len, id) + rest)[HEADER..] == rest
  {
    Pow256Values();
    LERoundTrip(len, 3);
    assert (Header(len, id) + rest)[0..3] == LE(len, 3);
  }

  /**
   Framing is undone by reading: the payload, what follows it, and the last sequence id come back, for any payload.
   */
  lemma {:induction false} FramesReadBack(payload: seq<byte>, id: int, rest: seq<byte>)
    ensures var s := Frames(payload, id) + rest;
      var len := NextLen(s, 0);
      var body := s[HEADER..];
      && Complete(len, len, body)
      && Rest(len, len, body) == payload
      && After(len, len, body) == rest
      && s[3] == Low8(id)
      && LastId(len, len, body, s[3]) == Low8(id + Count(|payload|) - 1)
    decreases |payload|
  {
    var s := Frames(payload, id) + rest;
    if |payload| < MAX {
      ConcatAssoc(Header(|payload|, id), payload, rest);
      HeaderReadsBack(|payload|, id, payload + rest);
    } else {
      var head, tail := payload[..MAX], payload[MAX..];
      var more := Frames(tail, id + 1) + rest;
      FramesReadBack(tail, id + 1, rest);
      ConcatAssoc(Header(MAX, id) + head, Frames(tail, id + 1), rest);
      ConcatAssoc(Header(MAX, id), head, more);
      HeaderReadsBack(MAX, id, head + more);
      var body := s[HEADER..];
      assert body == head + more && body[..MAX] == head;
      assert body[MAX..MAX + 3] == more[0..3] && body[MAX + 3] == more[3] && body[MAX + HEADER..] == more[HEADER..];
      assert NextLen(body, MAX) == NextLen(more, 0);
      assert head + tail == payload;
      assert Count(|payload|) == 1 + Count(|tail|);
    }
  }

  /**
   At this place there is a packet with this data: its header declares the length of the data, and has this number.
   */
  predicate PacketAt(s: seq<byte>, at: nat, data: seq<byte>, id: int) {
    && at + HEADER + |data| <= |s| && NextLen(s, at) == |data| && s[at + 3] == Low8(id)
    && s[at + HEADER..at + HEADER + |data|] == data
  }

  lemma PacketLater(before: seq<byte>, s: seq<byte>, at: nat, data: seq<byte>, id: int)
    requires PacketAt(s, at, data, id)
    ensures PacketAt(before + s, |before| + at, data, id)
  {
    var t, i := before + s, |before| + at;
    assert t[i..i + 3] == s[at..at + 3];
    assert t[i + HEADER..i + HEADER + |data|] == s[at + HEADER..at + HEADER + |data|];
  }

  lemma PacketFirst(data: seq<byte>, id: int, rest: seq<byte>)
    requires |data| <= MAX
    ensures PacketAt(Header(|data|, id) + data + rest, 0, data, id)
  {
    ConcatAssoc(Header(|data|, id), data, rest);
    HeaderReadsBack(|data|, id, data + rest);
    assert (Header(|data|, id) + data + rest)[HEADER..HEADER + |data|] == data;
  }

  /** What packet `k` carries. */
  function Part(payload: seq<byte>, k: nat): (r: seq<byte>)
    requires k < Count(|payload|)
    ensures |r| <= MAX && (|r| < MAX <==> k == Count(|payload|) - 1)
  {
    payload[k * MAX..if k < Count(|payload|) - 1 then (k + 1) * MAX else |payload|]
  }

  /**
   The shape of the stream: packet `k` is at this place. All packets but the last declare 0xFFFFFF bytes, and the last
   fewer; the numbers follow each other, and each packet carries its part of the payload.
   */
  lemma {:induction false} FramesShape(payload: seq<byte>, id: int, k: nat)
    requires k < Count(|payload|)
    ensures |Frames(payload, id)| == |payload| + HEADER * Count(|payload|)
    ensures PacketAt(Frames(payload, id), k * (HEADER + MAX), Part(payload, k), id + k)
    decreases |payload|
  {
    hide PacketAt, Header;
    var s := Frames(payload, id);
    if |payload| < MAX {
      HeaderSize(|payload|, id);
      PacketFirst(payload, id, []);
      assert s == Header(|payload|, id) + payload + [] && Part(payload, 0) == payload;
    } else {
      var head, tail := payload[..MAX], payload[MAX..];
      var more := Frames(tail, id + 1);
      assert s == Header(MAX, id) + head + more;
      assert Count(|payload|) == 1 + Count(|tail|);
      FramesShape(tail, id + 1, if k == 0 then 0 else k - 1);
      HeaderSize(MAX, id);
      if k == 0 {
        PacketFirst(head, id, more);
        assert Part(payload, 0) == head;
      } else {
        PacketLater(Header(MAX, id) + head, more, (k - 1) * (HEADER + MAX), Part(tail, k - 1), id + k);
        PartLater(payload, k);
      }
    }
  }

  lemma PartLater(payload: seq<byte>, k: nat)
    requires |payload| >= MAX && 1 <= k < Count(|payload|)
    ensures k - 1 < Count(|payload| - MAX) && Part(payload, k) == Part(payload[MAX..], k - 1)
  {
    var n := |payload|;
    assert Count(n) == 1 + Count(n - MAX);
    var from, to := k * MAX, if k < Count(n) - 1 then (k + 1) * MAX else n;
    assert payload[MAX..] == payload[MAX..n];
    SliceSlice(payload, MAX, n, from - MAX, to - MAX);
  }

  lemma HeaderSize(len: nat, id: int)
    ensures |Header(len, id)| == HEADER
  {
  }

  // ----- Steps of the reader -----

  /** Reading inside the current packet. */
  lemma {:induction false} RestAdvances(len: nat, rem: nat, s: seq<byte>, n: nat)
    requires n <= rem && n <= |s|
    ensures Rest(len, rem, s) == s[..n] + Rest(len, rem - n, s[n..])
    ensures Complete(len, rem, s) == Complete(len, rem - n, s[n..])
    ensures Complete(len, rem, s) ==> After(len, rem, s) == After(len, rem - n, s[n..])
  {
    var t := s[n..];
    if |s| >= rem {
      assert s[..rem] == s[..n] + t[..rem - n];
      assert t[rem - n..] == s[rem..];
      if |s| >= rem + HEADER {
        assert s[rem..rem + 3] == t[rem - n..rem - n + 3];
        assert s[rem + HEADER..] == t[rem - n + HEADER..];
      }
    } else {
      assert s == s[..n] + t;
    }
  }

  /**
   Going over the boundary of a full packet: the header is dropped, `tail` bytes before it and the next packet are
   joined.
   */
  lemma {:induction false} RestJoins(tail: nat, s: seq<byte>)
    requires |s| >= tail + HEADER
    ensures var next := NextLen(s, tail);
      var joined := s[..tail] + s[tail + HEADER..];
      && Rest(MAX, tail, s) == Rest(next, next + tail, joined)
      && Complete(MAX, tail, s) == Complete(next, next + tail, joined)
      && (Complete(MAX, tail, s) ==> After(MAX, tail, s) == After(next, next + tail, joined))
  {
    var next := NextLen(s, tail);
    var joined := s[..tail] + s[tail + HEADER..];
    RestAdvances(next, next + tail, joined, tail);
    assert joined[tail..] == s[tail + HEADER..] && joined[..tail] == s[..tail];
  }

  // ----- All of it at once -----

  /**
   What a reader has before it: the rest of the logical payload, and, if that is all there, what follows it and the
   last sequence id.
   */
  datatype View = View(payload: seq<byte>, whole: bool, after: seq<byte>, lastId: int)
  {
    function Drop(n: nat): View
      requires n <= |payload|
    {
      this.(payload := payload[n..])
    }
  }

  lemma DropDrop(v: View, a: nat, b: nat)
    requires a <= |v.payload| && b <= |v.Drop(a).payload|
    ensures a + b <= |v.payload| && v.Drop(a).Drop(b) == v.Drop(a + b)
    ensures v.payload[..a] + v.Drop(a).payload[..b] == v.payload[..a + b]
  {
  }

  function Look(len: nat, rem: nat, s: seq<byte>, id: byte): View {
    var whole := Complete(len, rem, s);
    View(Rest(len, rem, s), whole, if whole then After(len, rem, s) else [], if whole then LastId(len, rem, s, id)
    else 0)
  }

  lemma LookAdvances(len: nat, rem: nat, s: seq<byte>, id: byte, n: nat)
    requires n <= rem && n <= |s|
    ensures n <= |Look(len, rem, s, id).payload| && Look(len, rem, s, id).payload[..n] == s[..n]
    ensures Look(len, rem - n, s[n..], id) == Look(len, rem, s, id).Drop(n)
  {
    RestAdvances(len, rem, s, n);
    var t := s[n..];
    if Complete(len, rem, s) && len == MAX {
      assert s[rem..rem + 3] == t[rem - n..rem - n + 3] && s[rem + 3] == t[rem - n + 3];
      assert s[rem + HEADER..] == t[rem - n + HEADER..];
    }
  }

  lemma LookJoins(tail: nat, s: seq<byte>, id: byte)
    requires |s| >= tail + HEADER
    ensures Look(MAX, tail, s, id)
         == Look(NextLen(s, tail), NextLen(s, tail) + tail, s[..tail] + s[tail + HEADER..], s[tail + 3])
  {
    RestJoins(tail, s);
    var next := NextLen(s, tail);
    var joined := s[..tail] + s[tail + HEADER..];
    LookAdvances(next, next + tail, joined, s[tail + 3], tail);
    assert joined[tail..] == s[tail + HEADER..];
  }

  /**
   A caller that stays inside the payload stays inside the packet, when the packet is not about to end as a full one.
   */
  lemma LookInside(len: nat, rem: nat, s: seq<byte>, id: byte, n: nat)
    requires n <= |s| && (len == MAX ==> n <= rem)
    requires Look(len, rem, s, id).whole ==> n <= |Look(len, rem, s, id).payload|
    ensures n <= rem
  {
  }

  lemma LookCut(len: nat, rem: nat, s: seq<byte>, id: byte)
    requires |s| < rem || (len == MAX && |s| < rem + HEADER)
    ensures !Look(len, rem, s, id).whole
  {
  }

  lemma LookBounds(len: nat, rem: nat, s: seq<byte>, id: byte)
    ensures |Look(len, rem, s, id).payload| <= |s|
    ensures len != MAX && |s| >= rem ==> Look(len, rem, s, id).whole && Look(len, rem, s, id).payload == s[..rem]
  {
  }

  /** A caller that goes over the end of the packet, and stays inside the payload, is in a full packet. */
  lemma LookBeyond(len: nat, rem: nat, s: seq<byte>, id: byte, n: nat)
    requires rem < n && (Look(len, rem, s, id).whole ==> n <= |Look(len, rem, s, id).payload|)
    ensures |s| >= rem ==> len == MAX
    ensures |s| < rem + HEADER ==> !Look(len, rem, s, id).whole
  {
  }
}
