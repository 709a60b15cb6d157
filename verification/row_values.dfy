/** The values of rows by the rules of the protocol, read from their bytes without the reader of the program. */
module RowValues {
  import opened Bytes
  import opened Results
  import Lenenc
  import Rows
  import StmtServer

  /** A number of this width, with a sign or without. */
  lemma IntegerMeans(k: nat, unsigned: bool, n: int)
    requires Rows.Fits(Rows.Int(k, unsigned), Rows.Integer(n))
    ensures var s := Rows.ValueBytes(Rows.Int(k, unsigned), Rows.Integer(n));
      |s| == k && (if unsigned then FromLE(s) else StmtServer.Signed(s)) == n
  {
    hide LE, FromLE, StmtServer.Signed, Pow256;
    if unsigned {
      StmtServer.UnsignedComesBack(n, k);
    } else {
      StmtServer.SignedComesBack(n, k);
    }
  }

  /** A date and a time of day, with as many components as are needed. */
  lemma DateMeans(v: Rows.Value, rest: seq<byte>)
    requires v.Date? && Rows.Fits(Rows.DateTime, v)
    ensures StmtServer.ReadDateTime(Rows.ValueBytes(Rows.DateTime, v) + rest) ==
      Some((StmtServer.DateTime(v.year, v.month, v.day, v.hour, v.minute, v.second, v.micro), rest))
  {
    hide LE, FromLE;
    Pow256Values();
    OneByte(v.month);
    OneByte(v.day);
    OneByte(v.hour);
    OneByte(v.minute);
    OneByte(v.second);
    var len := Rows.DateLen(v);
    OneByte(len);
    LERoundTrip(v.year, 2);
    LERoundTrip(v.micro, 4);
    var date: seq<byte>, time: seq<byte> := LE(v.year, 2) + [v.month, v.day], [v.hour, v.minute, v.second];
    assert LE(v.year, 2) + ([v.month] + [v.day]) == date && [v.hour] + ([v.minute] + [v.second]) == time;
    var a, b := if len >= 4 then date else [], if len >= 7 then time else [];
    var c := if len >= 11 then LE(v.micro, 4) else [];
    assert Rows.ValueBytes(Rows.DateTime, v) == [len] + a + b + c;
    DateParts(len, a, b, c, rest);
  }

  lemma DateParts(len: nat, a: seq<byte>, b: seq<byte>, c: seq<byte>, rest: seq<byte>)
    requires len == |a| + |b| + |c| < 0x100
    ensures var s := [len] + a + b + c + rest;
      && s[0] == len < |s| && s[1 + len..] == rest
      && var t := s[1..1 + len];
         && t[..|a|] == a && t[|a|..|a| + |b|] == b && t[|a| + |b|..] == c
         && (|a| == 4 ==> t[..2] == a[..2] && t[2] == a[2] && t[3] == a[3])
         && (|a| == 4 && |b| == 3 ==> t[4] == b[0] && t[5] == b[1] && t[6] == b[2])
         && (|a| == 4 && |b| == 3 && |c| == 4 ==> t[7..11] == c)
  {
    var s := [len] + a + b + c + rest;
    assert s[1..1 + len] == a + b + c;
  }

  lemma OneByte(n: nat)
    requires n < 0x100
    ensures LE(n, 1) == [n]
  {
    assert LE(n / 0x100, 0) == [];
  }

  /** A span of time: a length, a sign, days, hours, minutes, seconds, and microseconds if there are any. */
  function ReadSpan(s: seq<byte>): Option<(int, seq<byte>)> {
    if s == [] || |s| <= s[0] || s[0] !in {0, 8, 12} then None
    else
      var len: nat := s[0];
      var t, rest := s[1..1 + len], s[1 + len..];
      if len == 0 then Some((0, rest))
      else
        var seconds: nat := ((FromLE(t[1..5]) * 24 + t[5]) * 60 + t[6]) * 60 + t[7];
        var micros: int := seconds * 1_000_000 + (if len == 12 then FromLE(t[8..12]) else 0);
        Some((if t[0] == 1 then -micros else micros, rest))
  }

  lemma SpanMeans(micros: int, rest: seq<byte>)
    requires Rows.Fits(Rows.Time, Rows.Duration(micros))
    ensures ReadSpan(Rows.ValueBytes(Rows.Time, Rows.Duration(micros)) + rest) == Some((micros, rest))
  {
    hide LE, FromLE, ReadSpan;
    var abs := Rows.Abs(micros);
    var micro, seconds := abs % 1_000_000, abs / 1_000_000;
    var s := Rows.ValueBytes(Rows.Time, Rows.Duration(micros)) + rest;
    OneByte(0);
    OneByte(1);
    OneByte(8);
    OneByte(12);
    if micros == 0 {
      assert s == [0] + rest;
      NoSpan(rest);
    } else {
      var days, h, m, sec := seconds / 86_400, seconds / 3600 % 24, seconds / 60 % 60, seconds % 60;
      var sign: byte := if micros < 0 then 1 else 0;
      assert days == abs / 86_400_000_000;
      OneByte(h);
      OneByte(m);
      OneByte(sec);
      var more := if micro != 0 then LE(micro, 4) else [];
      assert s == [8 + |more|] + ([sign] + LE(days, 4) + [h, m, sec] + more + rest);
      SpanRead(sign, days, h, m, sec, micro, rest);
      Clock(seconds);
    }
  }

  lemma NoSpan(rest: seq<byte>)
    ensures ReadSpan([0] + rest) == Some((0, rest))
  {
  }

  lemma SpanRead(sign: byte, days: nat, h: byte, m: byte, sec: byte, micro: nat, rest: seq<byte>)
    requires days < 0x1_0000_0000 && micro < 1_000_000
    ensures var more := if micro != 0 then LE(micro, 4) else [];
      var abs := (((days * 24 + h) * 60 + m) * 60 + sec) * 1_000_000 + micro;
      ReadSpan([8 + |more|] + ([sign] + LE(days, 4) + [h, m, sec] + more + rest))
        == Some((if sign == 1 then -abs else abs, rest))
  {
    hide LE, FromLE;
    Pow256Values();
    LERoundTrip(days, 4);
    LERoundTrip(micro, 4);
    var more := if micro != 0 then LE(micro, 4) else [];
    SpanParts(8 + |more|, sign, LE(days, 4), [h, m, sec], more, rest);
  }

  lemma SpanParts(len: nat, sign: byte, days: seq<byte>, clock: seq<byte>, more: seq<byte>, rest: seq<byte>)
    requires len == 8 + |more| <= 12 && |days| == 4 && |clock| == 3
    ensures var s := [len] + ([sign] + days + clock + more + rest);
      && s[0] == len < |s| && s[1 + len..] == rest
      && var t := s[1..1 + len];
         && t[0] == sign && t[1..5] == days && t[5] == clock[0] && t[6] == clock[1] && t[7] == clock[2]
         && (len == 12 ==> t[8..12] == more)
  {
    assert ([len] + ([sign] + days + clock + more + rest))[1..1 + len] == [sign] + days + clock + more;
  }

  lemma Clock(seconds: nat)
    ensures ((seconds / 86_400 * 24 + seconds / 3600 % 24) * 60 + seconds / 60 % 60) * 60 + seconds % 60 == seconds
  {
    var minutes, hours := seconds / 60, seconds / 3600;
    DivDiv(seconds, 60, 60);
    DivDiv(seconds, 3600, 24);
    assert hours / 24 * 24 + hours % 24 == hours;
    assert minutes / 60 * 60 + minutes % 60 == minutes;
  }

  /** Length-encoded bytes. */
  lemma BytesMean(bytes: seq<byte>)
    requires Rows.Fits(Rows.Bytes, Rows.Blob(bytes))
    ensures var s, size := Rows.ValueBytes(Rows.Bytes, Rows.Blob(bytes)), |Lenenc.Encode(|bytes|)|;
      && size == Lenenc.Size(s[0]) && Lenenc.Decode(s[..size]) == |bytes| && s[size..] == bytes
  {
    hide Lenenc.Encode, Lenenc.Decode;
    Lenenc.RoundTrip(|bytes|);
    StmtServer.Cut(Lenenc.Encode(|bytes|), bytes);
  }
}
