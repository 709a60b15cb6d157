/**
 The server's side of the execution of a prepared statement: what the commands of `StmtExecute` say to one who reads
 them by the rules of the protocol.
 */
module StmtServer {
  import opened Bytes
  import opened Results
  import opened Packets
  import P = Packets
  import opened Bits
  import Compression
  import Lenenc
  import Utf8
  import W = Writer
  import opened StmtExecute

  // ----- How values are read -----

  /** The value of a parameter, as the server understands it. */
  datatype Value =
    | Nothing
    | Tiny(tiny: int)
    | Long(long: int)
    | Double(double: seq<byte>)
    | LongLong(longlong: int)
    | DateTime(year: nat, month: nat, day: nat, hour: nat, minute: nat, second: nat, micro: nat)
    | String(string: seq<byte>)
    | LongBlob(blob: seq<byte>)

  const TINY: nat := 1
  const LONG: nat := 3
  const DOUBLE: nat := 5
  const LONGLONG: nat := 8
  const DATETIME: nat := 12
  const LONG_BLOB: nat := 251
  const STRING: nat := 254
  const UNSIGNED: nat := 0x8000

  /** Two's complement. */
  function Signed(s: seq<byte>): int {
    if s != [] && s[|s| - 1] >= 0x80 then FromLE(s) - Pow256(|s|) else FromLE(s)
  }

  /** A value of this type at the beginning of the bytes, and the bytes after it. */
  function ReadValue(code: nat, s: seq<byte>): Option<(Value, seq<byte>)> {
    if code == TINY && |s| >= 1 then Some((Tiny(Signed(s[..1])), s[1..]))
    else if code == LONG && |s| >= 4 then Some((Long(Signed(s[..4])), s[4..]))
    else if code == DOUBLE && |s| >= 8 then Some((Double(s[..8]), s[8..]))
    else if code == LONGLONG && |s| >= 8 then Some((LongLong(Signed(s[..8])), s[8..]))
    else if code == LONGLONG + UNSIGNED && |s| >= 8 then Some((LongLong(FromLE(s[..8])), s[8..]))
    else if code == DATETIME then ReadDateTime(s)
    else if s == [] || |s| < Lenenc.Size(s[0]) then None
    else
      var size := Lenenc.Size(s[0]);
      var len := Lenenc.Decode(s[..size]);
      if 0 <= len <= |s| - size && DataOf(code, s[size..size + len]).Some?
      then Some((DataOf(code, s[size..size + len]).value, s[size + len..])) else None
  }

  /** A length, and as many components as it says; those that are not there are 0. */
  function ReadDateTime(s: seq<byte>): Option<(Value, seq<byte>)> {
    if s == [] || |s| <= s[0] || s[0] !in {0, 4, 7, 11} then None
    else
      var len: nat := s[0];
      var t := s[1..1 + len];
      var date := if len >= 4 then (FromLE(t[..2]), t[2], t[3]) else (0, 0, 0);
      var time := if len >= 7 then (t[4], t[5], t[6]) else (0, 0, 0);
      var micro := if len >= 11 then FromLE(t[7..11]) else 0;
      Some((DateTime(date.0, date.1, date.2, time.0, time.1, time.2, micro), s[1 + len..]))
  }

  function DataOf(code: nat, data: seq<byte>): Option<Value> {
    if code == STRING then Some(String(data)) else if code == LONG_BLOB then Some(LongBlob(data)) else None
  }

  // ----- How commands are read -----

  /** The data that came ahead, by statement and parameter. */
  type Longs = map<(nat, nat), seq<byte>>

  datatype Executed = Executed(stmtId: nat, values: seq<Value>, rest: seq<byte>)

  /** One parameter: from the data that came ahead, or null, or the next of the values. */
  function ReadParam(key: (nat, nat), isNull: bool, code: nat, s: seq<byte>, longs: Longs):
      Option<(Value, seq<byte>)>
  {
    if key in longs then
      var data := DataOf(code, longs[key]);
      if data.Some? then Some((data.value, s)) else None
    else if isNull then Some((Nothing, s))
    else ReadValue(code, s)
  }

  /** The parameters from `i` on. */
  function ReadParams(id: nat, n: nat, i: nat, bitmap: seq<byte>, types: seq<byte>, s: seq<byte>, longs: Longs):
      Option<seq<Value>>
    requires i <= n && |bitmap| == (n + 7) / 8 && |types| == 2 * n
    decreases n - i
  {
    if i == n then if s == [] then Some([]) else None
    else
      var code := FromLE(types[2 * i..2 * i + 2]);
      var next := ReadParam((id, i), Bit(bitmap[i / 8], i % 8), code, s, longs);
      if next.None? then None
      else
        var others := ReadParams(id, n, i + 1, bitmap, types, next.value.1, longs);
        if others.None? then None else Some([next.value.0] + others.value)
  }

  /** The execution command. The server knows how many parameters each of its statements has. */
  function ReadExecute(counts: map<nat, nat>, s: seq<byte>, longs: Longs): Option<(nat, seq<Value>)> {
    if |s| < 10 || s[0] != 0x17 then None
    else
      var id := FromLE(s[1..5]);
      if id !in counts || s[5] != 0 || FromLE(s[6..10]) != 1 then None
      else if counts[id] == 0 then Some((id, []))
      else
        var n := counts[id];
        var nBits := (n + 7) / 8;
        if |s| < 11 + nBits + 2 * n || s[10 + nBits] != 1 then None
        else
          var types := s[11 + nBits..11 + nBits + 2 * n];
          var values := ReadParams(id, n, 0, s[10..10 + nBits], types, s[11 + nBits + 2 * n..], longs);
          if values.None? then None else Some((id, values.value))
  }

  /** Commands one after another, each numbered from 0, up to the first execution. */
  function Serve(counts: map<nat, nat>, s: seq<byte>, longs: Longs): Option<Executed>
    decreases |s|
  {
    if |s| < HEADER || s[3] != 0 || !Complete(NextLen(s, 0), NextLen(s, 0), s[HEADER..]) then None
    else
      var payload := Rest(NextLen(s, 0), NextLen(s, 0), s[HEADER..]);
      var rest := P.After(NextLen(s, 0), NextLen(s, 0), s[HEADER..]);
      AfterIsShorter(NextLen(s, 0), NextLen(s, 0), s[HEADER..]);
      if |payload| >= 7 && payload[0] == 0x18 then
        var id, i := FromLE(payload[1..5]), FromLE(payload[5..7]);
        Serve(counts, rest, Appended(longs, (id, i), payload[7..]))
      else
        var executed := ReadExecute(counts, payload, longs);
        if executed.None? then None else Some(Executed(executed.value.0, executed.value.1, rest))
  }

  function Appended(longs: Longs, key: (nat, nat), data: seq<byte>): Longs {
    longs[key := (if key in longs then longs[key] else []) + data]
  }

  lemma {:induction false} AfterIsShorter(len: nat, rem: nat, s: seq<byte>)
    requires Complete(len, rem, s)
    ensures |P.After(len, rem, s)| <= |s|
    decreases |s|
  {
    if len == MAX {
      AfterIsShorter(NextLen(s, rem), NextLen(s, rem), s[rem + HEADER..]);
    }
  }

  // ----- What a parameter means -----

  /** What the server should understand. A time is to the microsecond there, and to the millisecond here. */
  function Meaning(p: Param): Option<Value> {
    match p
    case Null => Some(Nothing)
    case Bool(b) => Some(Tiny(if b then 1 else 0))
    case Int32(n) => Some(Long(n))
    case Other(double) => Some(Double(double))
    case BigInt(big) => Some(LongLong(big))
    case Text(s) => Some(String(Utf8.Encode(s)))
    case Date(year, month, day, hour, minute, second, msec) =>
      if year < 0 then None else Some(DateTime(year, month, day, hour, minute, second, 1000 * msec))
    case Blob(bytes) => Some(LongBlob(bytes))
    case Stream(content) => Some(LongBlob(content))
    case Json(json) => Some(String(Utf8.Encode(json)))
  }

  /** Whether the parameter is one that the protocol has a form for. */
  predicate InRange(p: Param) {
    && (p.BigInt? ==> -0x8000_0000_0000_0000 <= p.big <= 0xFFFF_FFFF_FFFF_FFFF)
    && (p.Date? ==>
          && 0 <= p.year < 0x1_0000 && p.month < 0x100 && p.day < 0x100
          && p.hour < 0x100 && p.minute < 0x100 && p.second < 0x100 && 1000 * p.msec < 0x1_0000_0000)
  }

  /** What is sent ahead of the parameter, if anything. */
  function Ahead(p: Param): Option<seq<byte>> {
    if IsLong(p) then Some(LongBytes(p))
    else if p.Stream? && p.content != [] then Some(p.content)
    else None
  }

  /** A value that is not sent ahead is read back as what it means if and only if the protocol has a form for it. */
  lemma ValueComesBack(p: Param, rest: seq<byte>)
    requires WellTyped(p) && Ahead(p).None? && !p.Null?
    ensures var r := ReadValue(TypeOf(p), ValueBytes(p) + rest);
      r.Some? && r.value.1 == rest && (Meaning(p) == Some(r.value.0) <==> InRange(p))
  {
    hide LE, FromLE, Lenenc.Encode, Lenenc.Decode, Lenenc.Size, Utf8.Encode;
    match p {
      case Bool(b) => FromLEUnroll([if b then 1 else 0]);
      case Int32(n) => SignedInt(n, rest);
      case Other(double) =>
      case BigInt(big) => SignedBig(big, rest);
      case Text(s) => DataComesBack(STRING, Utf8.Encode(s), rest) by { Utf8.EncodeBounds(s); }
      case Date(_, _, _, _, _, _, _) => DateComesBack(p, rest);
      case Blob(bytes) => DataComesBack(LONG_BLOB, bytes, rest);
      case Stream(_) => StreamEmpty(rest);
    }
  }

  lemma Cut(a: seq<byte>, b: seq<byte>)
    ensures (a + b)[..|a|] == a && (a + b)[|a|..] == b
  {
  }

  /** The highest bit. */
  lemma {:induction false} TopByte(s: seq<byte>)
    requires s != []
    ensures s[|s| - 1] >= 0x80 <==> 2 * FromLE(s) >= Pow256(|s|)
    decreases |s|
  {
    if |s| > 1 {
      TopByte(s[1..]);
      assert s[1..][|s| - 2] == s[|s| - 1];
      assert Pow256(|s| - 1) == 2 * (0x80 * Pow256(|s| - 2));
    } else {
      FromLEUnroll(s);
      Pow256Values();
    }
  }

  /** A number comes back from `k` bytes with its sign if and only if it fits them. */
  lemma SignedComesBack(n: int, k: nat)
    requires k > 0
    ensures Signed(LE(n % Pow256(k), k)) == n <==> 0 <= Pow256(k) + 2 * n && 2 * n < Pow256(k)
  {
    hide FromLE, LE, Pow256;
    var m := Pow256(k);
    var s := LE(n % m, k);
    LERoundTrip(n % m, k);
    TopByte(s);
    if -m <= 2 * n < 0 {
      ModUnique(n, m, -1, n + m);
    } else if 0 <= 2 * n < m {
      ModUnique(n, m, 0, n);
    }
  }

  lemma UnsignedComesBack(n: nat, k: nat)
    ensures FromLE(LE(n % Pow256(k), k)) == n <==> n < Pow256(k)
  {
    LERoundTrip(n % Pow256(k), k);
    if n < Pow256(k) {
      ModUnique(n, Pow256(k), 0, n);
    }
  }

  lemma SignedInt(n: int, rest: seq<byte>)
    requires -0x8000_0000 <= n <= 0x7FFF_FFFF
    ensures ReadValue(LONG, LE(n % 0x1_0000_0000, 4) + rest) == Some((Long(n), rest))
  {
    hide LE, Signed;
    Pow256Values();
    SignedComesBack(n, 4);
    Cut(LE(n % 0x1_0000_0000, 4), rest);
  }

  lemma SignedBig(big: int, rest: seq<byte>)
    ensures var r := ReadValue(TypeOf(BigInt(big)), LE(big % 0x1_0000_0000_0000_0000, 8) + rest);
      r.Some? && r.value.1 == rest && (r.value.0 == LongLong(big) <==> InRange(BigInt(big)))
  {
    hide LE, FromLE, Signed;
    Pow256Values();
    SignedComesBack(big, 8);
    if big > 0 {
      UnsignedComesBack(big, 8);
    }
    Cut(LE(big % 0x1_0000_0000_0000_0000, 8), rest);
  }

  /** For instance: 2^64 is taken for 0. */
  lemma TooBig()
    ensures var p := BigInt(0x1_0000_0000_0000_0000);
      ReadValue(TypeOf(p), ValueBytes(p)) == Some((LongLong(0), []))
  {
    hide FromLE, LE;
    Pow256Values();
    LERoundTrip(0, 8);
    var s := LE(0, 8);
    assert s[..8] == s && s[8..] == [];
  }

  lemma DataComesBack(code: nat, data: seq<byte>, rest: seq<byte>)
    requires |data| < 0xFB && (code == STRING || code == LONG_BLOB)
    ensures ReadValue(code, Lenenc.Encode(|data|) + data + rest) == Some((DataOf(code, data).value, rest))
  {
    hide Lenenc.Decode;
    Lenenc.RoundTrip(|data|);
    var s := Lenenc.Encode(|data|) + data + rest;
    assert s[..1] == Lenenc.Encode(|data|) && s[1..1 + |data|] == data && s[1 + |data|..] == rest;
  }

  lemma StreamEmpty(rest: seq<byte>)
    ensures ReadValue(LONG_BLOB, [0] + rest) == Some((LongBlob([]), rest))
  {
    hide Lenenc.Decode;
    Lenenc.RoundTrip(0);
    var s: seq<byte> := [0] + rest;
    assert s[..1] == Lenenc.Encode(0) && s[1..1] == [] && s[1..] == rest;
  }

  lemma DateComesBack(p: Param, rest: seq<byte>)
    requires p.Date?
    ensures var r := ReadDateTime(ValueBytes(p) + rest);
      r.Some? && r.value.1 == rest && (Meaning(p) == Some(r.value.0) <==> InRange(p))
  {
    hide LE, FromLE;
    Pow256Values();
    var year, micro := LE(p.year % 0x1_0000, 2), LE(1000 * p.msec % 0x1_0000_0000, 4);
    var fields: seq<byte> := [Low8(p.month), Low8(p.day), Low8(p.hour), Low8(p.minute), Low8(p.second)];
    var s := ValueBytes(p) + rest;
    if p.year >= 0 {
      UnsignedComesBack(p.year, 2);
    }
    UnsignedComesBack(1000 * p.msec, 4);
    assert p.msec * 1000 == 1000 * p.msec;
    if p.msec != 0 {
      assert s == [11] + (year + fields + micro) + rest;
      var t := s[1..12];
      assert t == year + fields + micro && s[12..] == rest;
      assert t[..2] == year && t[2..7] == fields && t[7..11] == micro;
    } else {
      assert s == [7] + (year + fields) + rest;
      var t := s[1..8];
      assert t == year + fields && s[8..] == rest;
      assert t[..2] == year && t[2..7] == fields;
    }
  }

  // ----- The body of the execution command -----

  /** The data of these parameters that is sent ahead is there, and no other. */
  predicate Arrived(id: nat, ps: seq<Param>, longs: Longs) {
    forall i: nat :: i < |ps| ==>
      ((id, i) in longs <==> Ahead(ps[i]).Some?) && ((id, i) in longs ==> longs[(id, i)] == Ahead(ps[i]).value)
  }

  predicate AllWellTyped(ps: seq<Param>) {
    forall p :: p in ps ==> WellTyped(p)
  }

  /** The parameters from `i` on, as they are read. */
  predicate Understood(ps: seq<Param>, i: nat, values: seq<Value>) {
    && i + |values| == |ps|
    && forall k: nat :: i <= k < |ps| ==> (Meaning(ps[k]) == Some(values[k - i]) <==> InRange(ps[k]))
  }

  /** One parameter, from the data that came ahead, or from its bit, its type, and its value. */
  lemma NextParam(id: nat, ps: seq<Param>, i: nat, s: seq<byte>, longs: Longs)
    requires i < |ps| && AllWellTyped(ps) && Arrived(id, ps, longs)
    requires InlineSize(ps[i]) <= |s| && s[..InlineSize(ps[i])] == ValueBytes(ps[i])
    ensures var next := ReadParam((id, i), ps[i].Null?, TypeOf(ps[i]), s, longs);
      && next.Some? && next.value.1 == s[InlineSize(ps[i])..]
      && (Meaning(ps[i]) == Some(next.value.0) <==> InRange(ps[i]))
  {
    hide ReadValue, Lenenc.Encode, Utf8.Encode, LE;
    var p := ps[i];
    assert WellTyped(p);
    if (id, i) in longs || p.Null? {
      assert s[0..] == s;
    } else {
      var rest := s[InlineSize(p)..];
      assert ValueBytes(p) + rest == s;
      ValueComesBack(p, rest);
    }
  }

  /** The parameters from `i` on, from their places in the body. */
  lemma {:induction false} ParamsComeBack(id: nat, ps: seq<Param>, i: nat, s: seq<byte>, longs: Longs)
    requires i <= |ps| && AllWellTyped(ps) && Arrived(id, ps, longs)
    requires InlineSizes(ps[..i]) <= |Values(ps)| && s == Values(ps)[InlineSizes(ps[..i])..]
    ensures var r := ReadParams(id, |ps|, i, Bitmap(Nulls(ps)), Types(ps), s, longs);
      r.Some? && Understood(ps, i, r.value)
    decreases |ps| - i
  {
    hide ReadParams, ReadParam, LE, FromLE, ValueBytes, InlineSize, Values, Types, Bitmap, Bit, Nulls, Arrived, Meaning,
      InRange, TypeOf, Understood, AllWellTyped, InlineSizes;
    if i == |ps| {
      NoneLeft(ps);
      ReadsNone(id, ps, s, longs);
    } else {
      var next := ReadParam((id, i), ps[i].Null?, TypeOf(ps[i]), s, longs);
      ParamComesBack(id, ps, i, s, longs);
      ParamsComeBack(id, ps, i + 1, next.value.1, longs);
      var others := ReadParams(id, |ps|, i + 1, Bitmap(Nulls(ps)), Types(ps), next.value.1, longs);
      ReadsOne(id, ps, i, s, longs);
      OneMore(ps, i, next.value.0, others.value);
    }
  }

  lemma ReadsNone(id: nat, ps: seq<Param>, s: seq<byte>, longs: Longs)
    requires AllWellTyped(ps) && InlineSizes(ps[..|ps|]) <= |Values(ps)| && s == Values(ps)[InlineSizes(ps[..|ps|])..]
    ensures ReadParams(id, |ps|, |ps|, Bitmap(Nulls(ps)), Types(ps), s, longs) == Some([])
  {
    hide Bitmap, Types, Values, InlineSizes;
    Places(ps, |ps|);
    assert ps[..|ps|] == ps;
  }

  /** The parameter `i`, from its place, and the place of the next. */
  lemma ParamComesBack(id: nat, ps: seq<Param>, i: nat, s: seq<byte>, longs: Longs)
    requires i < |ps| && AllWellTyped(ps) && Arrived(id, ps, longs)
    requires InlineSizes(ps[..i]) <= |Values(ps)| && s == Values(ps)[InlineSizes(ps[..i])..]
    ensures var next := ReadParam((id, i), ps[i].Null?, TypeOf(ps[i]), s, longs);
      && next.Some? && (Meaning(ps[i]) == Some(next.value.0) <==> InRange(ps[i]))
      && InlineSizes(ps[..i + 1]) <= |Values(ps)| && next.value.1 == Values(ps)[InlineSizes(ps[..i + 1])..]
  {
    hide ReadParam, ValueBytes, InlineSize, Values, Arrived, Meaning, InRange, TypeOf, AllWellTyped, InlineSizes;
    Places(ps, i);
    SizesGo(ps, i);
    NextBytes(Values(ps), InlineSizes(ps[..i]), InlineSize(ps[i]));
    NextParam(id, ps, i, s, longs);
  }

  lemma NextBytes(all: seq<byte>, at: nat, size: nat)
    requires at + size <= |all|
    ensures all[at..][..size] == all[at..at + size] && all[at..][size..] == all[at + size..]
  {
  }

  /** One step of reading: the bit and the type are those of the parameter. */
  lemma ReadsOne(id: nat, ps: seq<Param>, i: nat, s: seq<byte>, longs: Longs)
    requires i < |ps|
    ensures var next := ReadParam((id, i), ps[i].Null?, TypeOf(ps[i]), s, longs);
      var b, t := Bitmap(Nulls(ps)), Types(ps);
      next.Some? && ReadParams(id, |ps|, i + 1, b, t, next.value.1, longs).Some? ==>
        ReadParams(id, |ps|, i, b, t, s, longs)
          == Some([next.value.0] + ReadParams(id, |ps|, i + 1, b, t, next.value.1, longs).value)
  {
    hide ReadParam, LE, FromLE, Types, Bitmap, Bit, TypeOf;
    TypeAt(ps, i);
    TypeRead(ps[i]);
    BitmapBit(Nulls(ps), i);
  }

  lemma Places(ps: seq<Param>, i: nat)
    requires i <= |ps| && AllWellTyped(ps)
    ensures |Values(ps)| == InlineSizes(ps)
    ensures i < |ps| ==>
      var at, size := InlineSizes(ps[..i]), InlineSize(ps[i]);
      at + size <= |Values(ps)| && Values(ps)[at..at + size] == ValueBytes(ps[i])
  {
    SizesAreLength(ps);
    if i < |ps| {
      ValueAt(ps, i);
    }
  }

  lemma SizesGo(ps: seq<Param>, i: nat)
    requires i < |ps|
    ensures InlineSizes(ps[..i + 1]) == InlineSizes(ps[..i]) + InlineSize(ps[i])
  {
    assert ps[..i + 1][..i] == ps[..i];
  }

  lemma OneMore(ps: seq<Param>, i: nat, value: Value, others: seq<Value>)
    requires i < |ps| && Understood(ps, i + 1, others) && (Meaning(ps[i]) == Some(value) <==> InRange(ps[i]))
    ensures Understood(ps, i, [value] + others)
  {
    hide Meaning, InRange;
  }

  lemma TypeRead(p: Param)
    ensures FromLE(LE(TypeOf(p), 2)) == TypeOf(p)
  {
    Pow256Values();
    LERoundTrip(TypeOf(p), 2);
  }

  /** The server reads, from the body that is sent, the statement and every parameter. */
  lemma BodyComesBack(counts: map<nat, nat>, stmtId: nat, ps: seq<Param>, longs: Longs)
    requires AllWellTyped(ps) && Arrived(stmtId, ps, longs) && stmtId < 0x1_0000_0000
    requires stmtId in counts && counts[stmtId] == |ps|
    ensures var r := ReadExecute(counts, Body(stmtId, ps), longs);
      r.Some? && r.value.0 == stmtId && Understood(ps, 0, r.value.1)
  {
    hide LE, FromLE, Values, Types, Bitmap, Arrived, Understood, ReadParams, AllWellTyped;
    var n, nBits, body := |ps|, (|ps| + 7) / 8, Body(stmtId, ps);
    var b, t, v := Bitmap(Nulls(ps)), Types(ps), Values(ps);
    HeadComesBack(stmtId, b, t, v);
    if n == 0 {
      NoneLeft(ps);
    } else {
      BodyParts(Head(stmtId), b, t, v);
      assert v[0..] == v && ps[..0] == [];
      ParamsComeBack(stmtId, ps, 0, v, longs);
    }
  }

  lemma NoneLeft(ps: seq<Param>)
    ensures Understood(ps, |ps|, [])
  {
  }

  lemma HeadComesBack(stmtId: nat, b: seq<byte>, t: seq<byte>, v: seq<byte>)
    requires stmtId < 0x1_0000_0000
    ensures var s := Head(stmtId) + b + [1] + t + v;
      |s| >= 11 && s[0] == 0x17 && FromLE(s[1..5]) == stmtId && s[5] == 0 && FromLE(s[6..10]) == 1
  {
    hide LE, FromLE;
    Pow256Values();
    LERoundTrip(stmtId, 4);
    LERoundTrip(1, 4);
    var s, h := Head(stmtId) + b + [1] + t + v, Head(stmtId);
    assert s[..10] == h;
    assert h[1..5] == LE(stmtId, 4) && h[6..10] == LE(1, 4);
    assert s[1..5] == s[..10][1..5] && s[6..10] == s[..10][6..10];
  }

  // ----- The whole stream -----

  /** The data of one parameter, in any pieces, is gathered. */
  lemma {:induction false} PiecesServed(counts: map<nat, nat>, stmtId: nat, i: nat, pieces: seq<seq<byte>>,
      rest: seq<byte>, longs: Longs)
    requires stmtId < 0x1_0000_0000 && i < 0x1_0000
    ensures Serve(counts, PiecePackets(stmtId, i, pieces) + rest, longs)
         == Serve(counts, rest, Gathered(longs, (stmtId, i), pieces))
    decreases |pieces|
  {
    hide Serve, Frames, Prefix, Flatten;
    if pieces == [] {
      assert [] + rest == rest;
    } else {
      var init, last := pieces[..|pieces| - 1], pieces[|pieces| - 1];
      var packet := Frames(Prefix(stmtId, i) + last, 0);
      ConcatAssoc(PiecePackets(stmtId, i, init), packet, rest);
      PiecesServed(counts, stmtId, i, init, packet + rest, longs);
      PieceServed(counts, stmtId, i, last, rest, Gathered(longs, (stmtId, i), init));
      GatheredGoes(longs, (stmtId, i), init, last);
      assert init + [last] == pieces;
    }
  }

  function Gathered(longs: Longs, key: (nat, nat), pieces: seq<seq<byte>>): Longs {
    if pieces == [] then longs else Appended(longs, key, Flatten(pieces))
  }

  lemma GatheredGoes(longs: Longs, key: (nat, nat), pieces: seq<seq<byte>>, piece: seq<byte>)
    ensures Gathered(longs, key, pieces + [piece]) == Appended(Gathered(longs, key, pieces), key, piece)
  {
    assert (pieces + [piece])[..|pieces|] == pieces;
    var was := if key in longs then longs[key] else [];
    ConcatAssoc(was, Flatten(pieces), piece);
    if pieces == [] {
      assert Flatten([piece]) == [] + piece == piece;
    }
  }

  lemma PieceServed(counts: map<nat, nat>, stmtId: nat, i: nat, piece: seq<byte>, rest: seq<byte>, longs: Longs)
    requires stmtId < 0x1_0000_0000 && i < 0x1_0000
    ensures Serve(counts, Frames(Prefix(stmtId, i) + piece, 0) + rest, longs)
         == Serve(counts, rest, Appended(longs, (stmtId, i), piece))
  {
    hide Frames, LE, FromLE, ReadExecute, Rest, P.After, Complete, Appended, Prefix;
    var payload := Prefix(stmtId, i) + piece;
    FramesReadBack(payload, 0, rest);
    PrefixComesBack(stmtId, i, piece);
  }

  lemma PrefixComesBack(stmtId: nat, i: nat, piece: seq<byte>)
    requires stmtId < 0x1_0000_0000 && i < 0x1_0000
    ensures var s := Prefix(stmtId, i) + piece;
      |s| >= 7 && s[0] == 0x18 && FromLE(s[1..5]) == stmtId && FromLE(s[5..7]) == i && s[7..] == piece
  {
    hide LE, FromLE;
    Pow256Values();
    LERoundTrip(stmtId, 4);
    LERoundTrip(i, 2);
    var s := Prefix(stmtId, i) + piece;
    assert s[1..5] == LE(stmtId, 4) && s[5..7] == LE(i, 2);
  }

  predicate AllPieces(ps: seq<Param>, parts: seq<seq<seq<byte>>>) {
    |parts| == |ps| && forall i :: 0 <= i < |ps| ==> PiecesOf(ps[i], parts[i])
  }

  /** The data of all the parameters is gathered, each for its own. */
  lemma {:induction false} LongsServed(counts: map<nat, nat>, stmtId: nat, parts: seq<seq<seq<byte>>>, rest: seq<byte>)
    requires stmtId < 0x1_0000_0000 && |parts| <= 0x1_0000
    ensures Serve(counts, LongPackets(stmtId, parts) + rest, map[])
         == Serve(counts, rest, AllGathered(stmtId, parts))
    decreases |parts|
  {
    hide Serve, PiecePackets, Gathered;
    if parts == [] {
      assert [] + rest == rest;
    } else {
      var init, n := parts[..|parts| - 1], |parts| - 1;
      ConcatAssoc(LongPackets(stmtId, init), PiecePackets(stmtId, n, parts[n]), rest);
      LongsServed(counts, stmtId, init, PiecePackets(stmtId, n, parts[n]) + rest);
      PiecesServed(counts, stmtId, n, parts[n], rest, AllGathered(stmtId, init));
    }
  }

  function AllGathered(stmtId: nat, parts: seq<seq<seq<byte>>>): Longs {
    if parts == [] then map[]
    else Gathered(AllGathered(stmtId, parts[..|parts| - 1]), (stmtId, |parts| - 1), parts[|parts| - 1])
  }

  lemma {:induction false} GatheredAt(stmtId: nat, parts: seq<seq<seq<byte>>>, i: nat)
    ensures (stmtId, i) in AllGathered(stmtId, parts) <==> i < |parts| && parts[i] != []
    ensures (stmtId, i) in AllGathered(stmtId, parts) ==> AllGathered(stmtId, parts)[(stmtId, i)] == Flatten(parts[i])
    decreases |parts|
  {
    hide Flatten;
    if parts != [] {
      GatheredAt(stmtId, parts[..|parts| - 1], i);
    }
  }

  lemma GatheredArrived(stmtId: nat, ps: seq<Param>, parts: seq<seq<seq<byte>>>)
    requires AllPieces(ps, parts)
    ensures Arrived(stmtId, ps, AllGathered(stmtId, parts))
  {
    hide AllGathered, IsLong, LongBytes;
    forall i: nat | i < |ps|
      ensures var longs := AllGathered(stmtId, parts);
        ((stmtId, i) in longs <==> Ahead(ps[i]).Some?)
        && ((stmtId, i) in longs ==> longs[(stmtId, i)] == Ahead(ps[i]).value)
    {
      GatheredAt(stmtId, parts, i);
      AheadIsPieces(ps[i], parts[i]);
    }
  }

  lemma AheadIsPieces(p: Param, pieces: seq<seq<byte>>)
    requires PiecesOf(p, pieces)
    ensures Ahead(p) == if pieces == [] then None else Some(Flatten(pieces))
  {
    hide IsLong, LongBytes;
    if IsLong(p) {
      assert Flatten(pieces) == Flatten(pieces[..0]) + pieces[0] && pieces[..0] == [] && Flatten([]) == [];
      assert [] + LongBytes(p) == LongBytes(p);
    } else if p.Stream? {
      FlattenLonger(pieces);
    }
  }

  /**
   The whole command as the server reads it: from the packets with the data that goes ahead, and the execution packet,
   it understands the statement and the list of its parameters, each as it was meant if and only if the protocol has a
   form for it, and nothing of what follows is taken.
   */
  lemma CommandServed(counts: map<nat, nat>, stmtId: nat, ps: seq<Param>, parts: seq<seq<seq<byte>>>, rest: seq<byte>)
    requires AllWellTyped(ps) && AllPieces(ps, parts) && stmtId < 0x1_0000_0000 && |ps| <= 0x1_0000
    requires stmtId in counts && counts[stmtId] == |ps|
    ensures var r := Serve(counts, LongPackets(stmtId, parts) + Frames(Body(stmtId, ps), 0) + rest, map[]);
      r.Some? && r.value.stmtId == stmtId && r.value.rest == rest && Understood(ps, 0, r.value.values)
  {
    hide Frames, ReadExecute, Rest, P.After, Complete, Body, Understood, AllGathered, LongPackets, AllPieces, Arrived,
      AllWellTyped;
    var body, longs := Body(stmtId, ps), AllGathered(stmtId, parts);
    ConcatAssoc(LongPackets(stmtId, parts), Frames(body, 0), rest);
    PartsMatch(ps, parts);
    LongsServed(counts, stmtId, parts, Frames(body, 0) + rest);
    GatheredArrived(stmtId, ps, parts);
    BodyComesBack(counts, stmtId, ps, longs);
    BodyBegins(stmtId, ps);
    FramesReadBack(body, 0, rest);
  }

  lemma PartsMatch(ps: seq<Param>, parts: seq<seq<seq<byte>>>)
    requires AllPieces(ps, parts)
    ensures |parts| == |ps|
  {
  }

  lemma BodyBegins(stmtId: nat, ps: seq<Param>)
    ensures |Body(stmtId, ps)| >= 11 && Body(stmtId, ps)[0] == 0x17
  {
  }

  /**
   A command sent behind what waits: unless something was lost, the server finds what waited as it was, and understands
   the command.
   */
  method Execute(w: W.Writer, stmtId: nat, ps: seq<Param>, ghost counts: map<nat, nat>) returns (r: Result<bool>)
    requires Ready(w) && w.buffer.Length > 0xFB && AllWellTyped(ps)
    requires stmtId < 0x1_0000_0000 && |ps| <= 0x1_0000 && stmtId in counts && counts[stmtId] == |ps|
    modifies w, w.buffer
    ensures r.Ok? && Fate(w.buffer.Length, w.alg == Compression.Plain, old(Queued(w)), ps).1 ==>
      && old(Done(w)) <= w.sent
      && var executed := Serve(counts, w.sent[|old(Done(w))|..], map[]);
      executed.Some? && executed.value.stmtId == stmtId && executed.value.rest == []
      && Understood(ps, 0, executed.value.values)
  {
    hide Compression.Unpack, Compression.Lawful, Frames, Body, IsLong, Fate, LongPackets, Done, Serve, Understood;
    ghost var base, parts := Done(w), [];
    r, parts := SendComStmtExecute(w, stmtId, ps);
    if r.Ok? && Fate(w.buffer.Length, w.alg == Compression.Plain, old(Queued(w)), ps).1 {
      var long, packet := LongPackets(stmtId, parts), Frames(Body(stmtId, ps), 0);
      ConcatAssoc(base, long, packet);
      assert w.sent[|base|..] == long + packet + [];
      CommandServed(counts, stmtId, ps, parts, []);
    }
  }
}
