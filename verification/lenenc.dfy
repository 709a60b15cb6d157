/** Length-encoded integers. */
module Lenenc {
  import opened Bytes
  import opened Results

  const NULL: int := -1

  function Encode(value: nat): (s: seq<byte>)
    ensures |s| >= 1
  {
    if value < 0xFB then [value]
    else if value <= 0xFFFF then [0xFC] + LE(value, 2)
    else if value <= 0xFF_FFFF then [0xFD] + LE(value, 3)
    else [0xFE] + LE(value, 8)
  }

  /** How many bytes the integer takes, from its first byte. */
  function Size(first: byte): (n: nat)
    ensures 1 <= n <= 9
  {
    if first == 0xFE then 9 else if first == 0xFD then 4 else if first == 0xFC then 3 else 1
  }

  function Decode(s: seq<byte>): int
    requires s != [] && |s| == Size(s[0])
  {
    if s[0] >= 0xFC && s[0] != 0xFF then FromLE(s[1..]) else if s[0] == 0xFB then NULL else s[0]
  }

  /** The null mark is one byte, and nothing else reads as null. */
  lemma NullMark(s: seq<byte>)
    requires s != [] && |s| == Size(s[0])
    ensures Decode(s) == NULL <==> s == [0xFB]
  {
  }

  /** A number that may be null. */
  function Written(value: Option<nat>): (s: seq<byte>)
    ensures |s| >= 1
  {
    if value.None? then [0xFB] else Encode(value.value)
  }

  lemma NullRoundTrip(value: Option<nat>)
    requires value.Some? ==> value.value < 0x1_0000_0000_0000_0000
    ensures |Written(value)| == Size(Written(value)[0])
    ensures Decode(Written(value)) == if value.None? then NULL else value.value
  {
    if value.Some? {
      RoundTrip(value.value);
    }
  }

  /** No form of a number is shorter than the one that is written. */
  lemma Shortest(s: seq<byte>)
    requires s != [] && |s| == Size(s[0]) && s[0] != 0xFF && s != [0xFB]
    ensures Decode(s) >= 0 && |Encode(Decode(s))| <= |s|
  {
    Pow256Values();
  }

  /** Every 64-bit unsigned integer is read back, and takes exactly the bytes that were written for it. */
  lemma RoundTrip(value: nat)
    requires value < 0x1_0000_0000_0000_0000
    ensures |Encode(value)| == Size(Encode(value)[0]) && Decode(Encode(value)) == value
  {
    Pow256Values();
    var k := Size(Encode(value)[0]) - 1;
    LERoundTrip(value, if k == 0 then 8 else k);
    if k != 0 {
      assert Encode(value)[1..] == LE(value, k);
    }
  }
}
