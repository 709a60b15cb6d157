/**
 JavaScript strings (sequences of 16-bit code units, lone surrogates included) and their
 UTF-8 encoding, as `TextEncoder` produces it (RFC 3629, section 3).
 */
module Utf8 {
  import opened Bytes
  import opened Results

  type CodeUnit = c: int | 0 <= c < 0x1_0000
  type Str = seq<CodeUnit>

  const REPLACEMENT: int := 0xFFFD

  predicate IsHigh(c: CodeUnit) { 0xD800 <= c <= 0xDBFF }
  predicate IsLow(c: CodeUnit) { 0xDC00 <= c <= 0xDFFF }

  /** A Unicode scalar value. */
  predicate IsScalar(cp: int) {
    0 <= cp < 0xD800 || 0xE000 <= cp < 0x11_0000
  }

  predicate StartsWithPair(s: Str) {
    |s| >= 2 && IsHigh(s[0]) && IsLow(s[1])
  }

  /** How many code units the first character takes. */
  function Units(s: Str): (n: nat)
    requires s != []
    ensures 1 <= n <= 2 && n <= |s|
  {
    if StartsWithPair(s) then 2 else 1
  }

  /** The first character; a lone surrogate becomes U+FFFD. */
  function FirstScalar(s: Str): (cp: int)
    requires s != []
    ensures IsScalar(cp)
  {
    if StartsWithPair(s) then 0x1_0000 + (s[0] - 0xD800) * 0x400 + (s[1] - 0xDC00)
    else if IsHigh(s[0]) || IsLow(s[0]) then REPLACEMENT
    else s[0]
  }

  function Scalars(s: Str): (cps: seq<int>)
    ensures forall i :: 0 <= i < |cps| ==> IsScalar(cps[i])
  {
    if s == [] then [] else [FirstScalar(s)] + Scalars(s[Units(s)..])
  }

  function EncodeScalar(cp: int): (bytes: seq<byte>)
    requires IsScalar(cp)
    ensures |bytes| == if cp < 0x80 then 1 else if cp < 0x800 then 2 else if cp < 0x1_0000 then 3 else 4
  {
    if cp < 0x80 then [cp]
    else if cp < 0x800 then [0xC0 + cp / 0x40, 0x80 + cp % 0x40]
    else if cp < 0x1_0000 then [0xE0 + cp / 0x1000, 0x80 + cp / 0x40 % 0x40, 0x80 + cp % 0x40]
    else [0xF0 + cp / 0x4_0000, 0x80 + cp / 0x1000 % 0x40, 0x80 + cp / 0x40 % 0x40, 0x80 + cp % 0x40]
  }

  /** The bytes of the first character. */
  function First(s: Str): (bytes: seq<byte>)
    requires s != []
    ensures 1 <= |bytes| <= 4
  {
    EncodeScalar(FirstScalar(s))
  }

  function Encode(s: Str): seq<byte> {
    if s == [] then [] else First(s) + Encode(s[Units(s)..])
  }

  // ----- The encoding read back -----

  predicate IsTail(b: byte) { 0x80 <= b < 0xC0 }

  /** Decodes the first character: RFC 3629, section 3 (overlong forms and surrogates are refused). */
  function DecodeFirst(b: seq<byte>): (r: Option<(int, nat)>)
    ensures r.Some? ==> IsScalar(r.value.0) && 1 <= r.value.1 <= |b|
  {
    if b == [] then None
    else if b[0] < 0x80 then Some((b[0], 1))
    else if 0xC2 <= b[0] < 0xE0 && |b| >= 2 && IsTail(b[1]) then
      Some(((b[0] as int - 0xC0) * 0x40 + (b[1] as int - 0x80), 2))
    else if 0xE0 <= b[0] < 0xF0 && |b| >= 3 && IsTail(b[1]) && IsTail(b[2]) then
      var cp := (b[0] as int - 0xE0) * 0x1000 + (b[1] as int - 0x80) * 0x40 + (b[2] as int - 0x80);
      if cp >= 0x800 && IsScalar(cp) then Some((cp, 3)) else None
    else if 0xF0 <= b[0] < 0xF5 && |b| >= 4 && IsTail(b[1]) && IsTail(b[2]) && IsTail(b[3]) then
      var cp := (b[0] as int - 0xF0) * 0x4_0000 + (b[1] as int - 0x80) * 0x1000
                + (b[2] as int - 0x80) * 0x40 + (b[3] as int - 0x80);
      if cp >= 0x1_0000 && IsScalar(cp) then Some((cp, 4)) else None
    else None
  }

  function Decode(b: seq<byte>): (r: Option<seq<int>>)
  {
    if b == [] then Some([])
    else match DecodeFirst(b)
      case None => None
      case Some((cp, n)) =>
        match Decode(b[n..])
        case None => None
        case Some(rest) => Some([cp] + rest)
  }

  lemma DecodeFirstOfEncode(cp: int, rest: seq<byte>)
    requires IsScalar(cp)
    ensures DecodeFirst(EncodeScalar(cp) + rest) == Some((cp, |EncodeScalar(cp)|))
  {
    var e := EncodeScalar(cp);
    var b := e + rest;
    assert forall i :: 0 <= i < |e| ==> b[i] == e[i];
    assert cp == cp / 0x1000 * 0x1000 + cp / 0x40 % 0x40 * 0x40 + cp % 0x40;
    assert cp == cp / 0x4_0000 * 0x4_0000 + cp / 0x1000 % 0x40 * 0x1000 + cp / 0x40 % 0x40 * 0x40 + cp % 0x40;
  }

  /** The encoding of any string, malformed ones included, is well-formed UTF-8 of its characters. */
  lemma {:induction false} EncodeIsUtf8(s: Str)
    ensures Decode(Encode(s)) == Some(Scalars(s))
    decreases |s|
  {
    if s != [] {
      var rest := s[Units(s)..];
      EncodeIsUtf8(rest);
      DecodeFirstOfEncode(FirstScalar(s), Encode(rest));
      assert Encode(s)[|First(s)|..] == Encode(rest);
    }
  }

  // ----- encodeInto -----

  /** How many code units `encodeInto` reads, given `room` bytes: whole characters only, as many as fit. */
  function Fits(s: Str, room: nat): (read: nat)
    ensures read <= |s|
    decreases |s|
  {
    if s == [] || |First(s)| > room then 0
    else Units(s) + Fits(s[Units(s)..], room - |First(s)|)
  }

  /** Cutting a string at a character boundary of its tail extends to the whole. */
  lemma CutAfterFirst(s: Str, cut: nat)
    requires s != [] && Units(s) <= cut <= |s|
    ensures Encode(s[..cut]) == First(s) + Encode(s[Units(s)..][..cut - Units(s)])
    ensures s[cut..] == s[Units(s)..][cut - Units(s)..]
  {
    var u, head := Units(s), s[..cut];
    assert head[0] == s[0] && (u == 2 ==> head[1] == s[1]);
    assert head[u..] == s[u..][..cut - u];
    if !StartsWithPair(s) && cut >= 2 {
      assert head[1] == s[1];
    }
    assert Units(head) == u && First(head) == First(s);
  }

  lemma FitsStep(s: Str, room: nat)
    requires s != [] && |First(s)| <= room
    ensures Fits(s, room) == Units(s) + Fits(s[Units(s)..], room - |First(s)|)
  {
  }

  /** The cut that `encodeInto` makes never divides a character. */
  lemma {:induction false} FitsCuts(s: Str, room: nat, read: nat)
    requires read == Fits(s, room)
    ensures Encode(s) == Encode(s[..read]) + Encode(s[read..])
    ensures |Encode(s[..read])| <= room
    ensures read < |s| ==> |Encode(s[..read])| + |First(s[read..])| > room
    decreases |s|
  {
    if s == [] || |First(s)| > room {
      assert s[..0] == [] && s[0..] == s;
    } else {
      FitsStep(s, room);
      var u, first := Units(s), First(s);
      var tail := s[u..];
      FitsCuts(tail, room - |first|, read - u);
      CutAfterFirst(s, read);
      ConcatAssoc(first, Encode(tail[..read - u]), Encode(s[read..]));
    }
  }

  lemma FirstFits(s: Str)
    ensures s == [] <==> Encode(s) == []
    ensures s != [] ==> |First(s)| <= |Encode(s)|
  {
  }

  /** The first character, alone. */
  lemma FirstAlone(s: Str)
    requires s != []
    ensures Encode(s[..Units(s)]) == First(s)
    ensures Encode(s) == First(s) + Encode(s[Units(s)..])
  {
    CutAfterFirst(s, Units(s));
    assert s[Units(s)..][..0] == [];
  }

  /** If everything fits, everything is read; and nothing is written only if the first character does not fit. */
  lemma {:induction false} FitsAll(s: Str, room: nat)
    ensures (Fits(s, room) == |s|) == (|Encode(s)| <= room)
    ensures Encode(s[..Fits(s, room)]) == [] <==> s == [] || |First(s)| > room
    decreases |s|
  {
    FitsCuts(s, room, Fits(s, room));
    var read := Fits(s, room);
    if read == |s| {
      assert s[..read] == s;
    } else {
      assert Encode(s[read..]) == First(s[read..]) + Encode(s[read..][Units(s[read..])..]);
      assert |Encode(s)| > room;
    }
    if s != [] && |First(s)| <= room {
      assert s[..read] != [];
    } else {
      assert s[..read] == [];
    }
  }

  lemma {:induction false} EncodeBounds(s: Str)
    ensures |s| <= |Encode(s)| <= 3 * |s|
    decreases |s|
  {
    if s != [] {
      EncodeBounds(s[Units(s)..]);
    }
  }

  // ----- utf8StringLength -----

  /** What the loop body adds for the character at the cursor, on top of one byte per code unit. */
  lemma FirstLength(s: Str)
    requires s != []
    ensures |First(s)| == Units(s) + (if s[0] <= 0x7F then 0 else if s[0] <= 0x7FF then 1 else 2)
  {
  }

  /** The number of bytes of the encoding, computed without encoding. */
  method Utf8StringLength(str: Str) returns (len: nat)
    ensures len == |Encode(str)|
  {
    len := |str|;
    var i := 0;
    assert str[0..] == str;
    while i < |str|
      invariant 0 <= i <= |str|
      invariant len == |Encode(str)| - |Encode(str[i..])| + (|str| - i)
    {
      var c := str[i];
      ghost var rest := str[i..];
      FirstLength(rest);
      if c > 0x7F {
        len := len + 1;
        if c > 0x7FF {
          len := len + 1;
          if c >= 0xD800 && c <= 0xDBFF && i + 1 < |str| {
            var c2 := str[i + 1];
            if c2 >= 0xDC00 && c2 <= 0xDFFF {
              i := i + 1; // both halves were there
            }
          }
        }
      }
      i := i + 1;
      assert rest[Units(rest)..] == str[i..];
    }
    assert str[|str|..] == [];
  }
}
