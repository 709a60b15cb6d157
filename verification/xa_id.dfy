/** The IDs of distributed transactions, and the cleaner that finds those whose ID names a dead connection. */
module XaId {
  import opened Results
  import TwoPhase
  import SwapRemove

  // ---- numbers in base 36 and 10

  function Digit(n: nat): char
    requires n < 36
  {
    if n < 10 then '0' + n as char else 'a' + (n - 10) as char
  }

  predicate IsDigit(c: char) {
    '0' <= c <= '9'
  }

  predicate IsAlnum(c: char) {
    IsDigit(c) || 'a' <= c <= 'z'
  }

  function Value(c: char): nat
    requires IsAlnum(c)
  {
    if IsDigit(c) then (c - '0') as nat else 10 + (c - 'a') as nat
  }

  lemma DigitValue(n: nat)
    requires n < 36
    ensures IsAlnum(Digit(n)) && (n < 10 <==> IsDigit(Digit(n))) && Value(Digit(n)) == n
  {
  }

  lemma TwiceAtLeast(q: nat, base: nat)
    requires 2 <= base
    ensures q * base >= q + q
  {
  }

  lemma Shorter(n: nat, base: nat)
    requires 2 <= base
    ensures 0 <= n % base < base && n == n / base * base + n % base
    ensures n >= base ==> 0 <= n / base < n
  {
    TwiceAtLeast(n / base, base);
  }

  /** `toString(base)`. */
  function Text(n: nat, base: nat): (s: string)
    requires 2 <= base <= 36
    ensures |s| > 0 && forall k :: 0 <= k < |s| ==> IsAlnum(s[k]) && (base <= 10 ==> IsDigit(s[k]))
    decreases n
  {
    Shorter(n, base);
    DigitValue(n % base);
    var last := Digit(n % base);
    if n < base then [last] else Text(n / base, base) + [last]
  }

  /** `parseInt(s, base)` of a string of digits. */
  function Parse(s: string, base: nat): nat
    requires forall k :: 0 <= k < |s| ==> IsAlnum(s[k])
  {
    if s == "" then 0 else Parse(s[..|s| - 1], base) * base + Value(s[|s| - 1])
  }

  lemma {:induction false} ParseText(n: nat, base: nat)
    requires 2 <= base <= 36
    ensures Parse(Text(n, base), base) == n
    decreases n
  {
    Shorter(n, base);
    DigitValue(n % base);
    var s, q, d := Text(n, base), n / base, n % base;
    assert s[|s| - 1] == Digit(d);
    if n < base {
      SmallQuotient(n, base);
      assert s[..|s| - 1] == "";
    } else {
      assert s[..|s| - 1] == Text(q, base);
      ParseText(q, base);
      hide Text, Digit;
      assert Parse(s, base) == q * base + d;
    }
  }

  lemma SmallQuotient(n: nat, base: nat)
    requires n < base
    ensures n / base == 0 && n % base == n
  {
  }

  /** A number has five digits in base 36 just when it is 36^4 or more. */
  lemma LongTime(n: nat)
    ensures |Text(n, 36)| >= 5 <==> n >= 36 * 36 * 36 * 36
  {
    TextLength(n, 1);
    TextLength(n / 36, 1);
    TextLength(n / 36 / 36, 1);
    TextLength(n / 36 / 36 / 36, 1);
  }

  lemma TextLength(n: nat, k: nat)
    ensures |Text(n, 36)| == 1 + (if n < 36 then 0 else |Text(n / 36, 36)|)
  {
  }

  // ---- the ID

  /** `next()`; the connection ID is appended to it. */
  function Id(time: nat, num: nat, pid: nat): string {
    Text(time, 36) + "." + Text(num, 36) + "@" + Text(pid, 36) + "-"
  }

  /** How many characters at the start are letters and digits; only digits, if so asked. */
  function Run(s: string, digits: bool): (n: nat)
    ensures n <= |s|
    ensures forall k :: 0 <= k < n ==> IsAlnum(s[k]) && (digits ==> IsDigit(s[k]))
  {
    if s != "" && (if digits then IsDigit(s[0]) else IsAlnum(s[0])) then 1 + Run(s[1..], digits) else 0
  }

  datatype Decoded = Decoded(time: nat, pid: nat, connectionId: nat)

  predicate Alnums(s: string, digits: bool) {
    forall k :: 0 <= k < |s| ==> IsAlnum(s[k]) && (digits ==> IsDigit(s[k]))
  }

  /** The group at the start, of so many letters and digits at least, and what follows its mark. */
  function Cut(s: string, mark: char, atLeast: nat): (r: Option<(string, string)>)
    ensures r.Some? ==> Alnums(r.value.0, false)
  {
    var n := Run(s, false);
    if n < atLeast || n == |s| || s[n] != mark then None else Some((s[..n], s[n + 1..]))
  }

  /**
   The regular expression of `decode()`: its groups cannot take each other's characters, so there is one way to
   match.
   */
  function Decode(s: string): Option<Decoded> {
    var t := Cut(s, '.', 5);
    if t.None? then None
    else
      var e := Cut(t.value.1, '@', 1);
      if e.None? then None
      else
        var p := Cut(e.value.1, '-', 1);
        if p.None? then None
        else
          var c := p.value.1;
          if Run(c, true) < |c| || c == "" then None
          else Some(Decoded(Parse(t.value.0, 36), Parse(p.value.0, 36), Parse(c, 10)))
  }

  lemma {:induction false} RunOf(s: string, rest: string, digits: bool)
    requires Alnums(s, digits) && (rest == "" || !IsAlnum(rest[0]))
    ensures Run(s + rest, digits) == |s|
  {
    if s == "" {
      assert s + rest == rest;
    } else {
      RunOf(s[1..], rest, digits);
      assert (s + rest)[1..] == s[1..] + rest;
    }
  }

  lemma CutMeans(s: string, mark: char, atLeast: nat, x: string, rest: string)
    requires !IsAlnum(mark)
    ensures Cut(s, mark, atLeast) == Some((x, rest)) <==>
      s == x + ([mark] + rest) && Alnums(x, false) && |x| >= atLeast
  {
    if s == x + ([mark] + rest) && Alnums(x, false) {
      RunOf(x, [mark] + rest, false);
      assert s[|x|] == mark && s[..|x|] == x && s[|x| + 1..] == rest;
    }
    var n := Run(s, false);
    assert n < |s| ==> s == s[..n] + ([s[n]] + s[n + 1..]);
  }

  lemma DigitsMean(c: string)
    ensures Run(c, true) == |c| <==> Alnums(c, true)
  {
    if Alnums(c, true) {
      RunOf(c, "", true);
      assert c + "" == c;
    }
  }

  /** An ID to its last character: time, number, process and connection, with the marks between them. */
  predicate IsForm(s: string, d: Decoded, t: string, e: string, p: string, c: string) {
    && Alnums(t, false) && |t| >= 5 && Alnums(e, false) && e != "" && Alnums(p, false) && p != ""
    && Alnums(c, true) && c != "" && s == t + (['.'] + (e + (['@'] + (p + (['-'] + c)))))
    && d == Decoded(Parse(t, 36), Parse(p, 36), Parse(c, 10))
  }

  ghost predicate HasForm(s: string, d: Decoded) {
    exists t: string, e: string, p: string, c: string :: IsForm(s, d, t, e, p, c)
  }

  /** Just what has this form is decoded, to these numbers; anything else is rejected. */
  lemma DecodesForms(s: string, d: Decoded)
    ensures Decode(s) == Some(d) <==> HasForm(s, d)
  {
    hide IsForm, Decode;
    if Decode(s) == Some(d) {
      DecodedHasForm(s);
    }
    if HasForm(s, d) {
      var t: string, e: string, p: string, c: string :| IsForm(s, d, t, e, p, c);
      FormDecodes(s, d, t, e, p, c);
    }
  }

  lemma DecodedHasForm(s: string)
    requires Decode(s).Some?
    ensures HasForm(s, Decode(s).value)
  {
    hide Parse, Run, Cut;
    var t := Cut(s, '.', 5).value;
    var e := Cut(t.1, '@', 1).value;
    var p := Cut(e.1, '-', 1).value;
    CutMeans(s, '.', 5, t.0, t.1);
    CutMeans(t.1, '@', 1, e.0, e.1);
    CutMeans(e.1, '-', 1, p.0, p.1);
    DigitsMean(p.1);
    assert IsForm(s, Decode(s).value, t.0, e.0, p.0, p.1);
  }

  lemma FormDecodes(s: string, d: Decoded, t: string, e: string, p: string, c: string)
    requires IsForm(s, d, t, e, p, c)
    ensures Decode(s) == Some(d)
  {
    hide Parse, Run, Cut;
    var s2 := p + (['-'] + c);
    var s1 := e + (['@'] + s2);
    CutMeans(s, '.', 5, t, s1);
    CutMeans(s1, '@', 1, e, s2);
    CutMeans(s2, '-', 1, p, c);
    DigitsMean(c);
  }

  /** What `decode()` reads is what was printed, if the time has five digits; otherwise it reads nothing. */
  lemma DecodeId(time: nat, num: nat, pid: nat, connectionId: nat)
    ensures Decode(Id(time, num, pid) + Text(connectionId, 10)) ==
      if time >= 36 * 36 * 36 * 36 then Some(Decoded(time, pid, connectionId)) else None
  {
    hide Text, Parse, Run, Cut;
    var t, e, p, c := Text(time, 36), Text(num, 36), Text(pid, 36), Text(connectionId, 10);
    LongTime(time);
    var s1 := e + (['@'] + (p + (['-'] + c)));
    var s := t + (['.'] + s1);
    assert Id(time, num, pid) + c == s;
    ParseText(time, 36);
    ParseText(pid, 36);
    ParseText(connectionId, 10);
    if |t| >= 5 {
      FormDecodes(s, Decoded(time, pid, connectionId), t, e, p, c);
    } else {
      ShortTime(t, s1);
    }
  }

  lemma ShortTime(t: string, s1: string)
    requires Alnums(t, false) && |t| < 5
    ensures Cut(t + (['.'] + s1), '.', 5).None?
  {
    RunOf(t, ['.'] + s1, false);
  }

  /** IDs of one process tell their time and number apart. */
  lemma IdInjective(time: nat, num: nat, time': nat, num': nat, pid: nat)
    requires Id(time, num, pid) == Id(time', num', pid)
    ensures time == time' && num == num'
  {
    hide Text, Parse, Run;
    var t, t', e, e', p := Text(time, 36), Text(time', 36), Text(num, 36), Text(num', 36), Text(pid, 36);
    var r, r' := e + ("@" + (p + "-")), e' + ("@" + (p + "-"));
    assert Id(time, num, pid) == t + ("." + r);
    assert Id(time', num', pid) == t' + ("." + r');
    RunOf(t, "." + r, false);
    RunOf(t', "." + r', false);
    assert (t + ("." + r))[..|t|] == t && (t' + ("." + r'))[..|t'|] == t';
    assert (t + ("." + r))[|t| + 1..] == r && (t' + ("." + r'))[|t'| + 1..] == r';
    RunOf(e, "@" + (p + "-"), false);
    RunOf(e', "@" + (p + "-"), false);
    assert r[..|e|] == e && r'[..|e'|] == e';
    ParseText(time, 36);
    ParseText(time', 36);
    ParseText(num, 36);
    ParseText(num', 36);
  }

  class XaIdGen {
    const pid: nat
    var lastTime: nat
    var lastEnum: nat
    ghost var issued: set<string>

    /** All IDs up to now are of the last second with numbers up to the last, or of earlier seconds. */
    ghost predicate Ordered()
      reads this
    {
      forall id :: id in issued ==>
        exists time: nat, num: nat :: id == Id(time, num, pid)
          && (time < lastTime || (time == lastTime && num <= lastEnum))
    }

    constructor (pid: nat)
      ensures Ordered() && issued == {} && this.pid == pid
    {
      this.pid, lastTime, lastEnum, issued := pid, 0, 0, {};
    }

    /** A new ID, and one that was never issued, as long as the clock does not go back. */
    method Next(curTime: nat) returns (id: string)
      modifies this
      ensures issued == old(issued) + {id}
      ensures id == Id(curTime, lastEnum, pid) && lastTime == curTime
      ensures lastEnum == if curTime == old(lastTime) then old(lastEnum) + 1 else 0
      ensures old(Ordered()) && curTime >= old(lastTime) ==> Ordered() && id !in old(issued)
    {
      hide Id, Text;
      var curEnum := 0;
      if curTime == lastTime {
        lastEnum := lastEnum + 1;
        curEnum := lastEnum;
      } else {
        lastTime, lastEnum := curTime, 0;
      }
      id := Id(curTime, curEnum, pid);
      issued := issued + {id};
      if old(Ordered()) && curTime >= old(lastTime) {
        if id in old(issued) {
          var time: nat, num: nat :| id == Id(time, num, pid) &&
            (time < old(lastTime) || (time == old(lastTime) && num <= old(lastEnum)));
          IdInjective(curTime, curEnum, time, num, pid);
          assert false;
        }
        forall x | x in issued
          ensures exists time: nat, num: nat ::
            x == Id(time, num, pid) && (time < lastTime || (time == lastTime && num <= lastEnum))
        {
          if x in old(issued) {
            var time: nat, num: nat :| x == Id(time, num, pid) &&
              (time < old(lastTime) || (time == old(lastTime) && num <= old(lastEnum)));
          } else {
            assert x == Id(lastTime, lastEnum, pid);
          }
        }
      }
    }
  }

  // ---- the cleaner

  datatype Xa = Xa(xaId: string, time: nat, pid: nat, connectionId: nat)

  /**
   The first `m` of `r` and what is gone make up `all`; of the first `m`, those from `i` are not of the connection.
   */
  ghost predicate Parted(r: seq<Xa>, i: int, m: nat, gone: multiset<Xa>, all: multiset<Xa>, id: nat)
    requires -1 <= i < m <= |r|
  {
    && multiset(r[..m]) + gone == all
    && (forall k :: i < k < m ==> r[k].connectionId != id)
    && (forall x :: x in gone ==> x.connectionId == id)
  }

  /** The element `n` fills the gap at `i`. */
  function Filled(r: seq<Xa>, i: nat, n: nat): (f: seq<Xa>)
    requires i <= n < |r|
    ensures |f| == |r|
  {
    r[i := r[n]]
  }

  lemma PartedMore(r: seq<Xa>, i: nat, m: nat, gone: multiset<Xa>, all: multiset<Xa>)
    requires i < m <= |r| && Parted(r, i, m, gone, all, r[i].connectionId)
    ensures Parted(Filled(r, i, m - 1), i - 1, m - 1, gone + multiset{r[i]}, all, r[i].connectionId)
  {
    var r' := r[i := r[m - 1]];
    assert multiset(r[..m]) + gone == all;
    MovedOne(r, r', i, m, gone, all, r[i].connectionId);
    hide Parted;
    SwapRemove.GapFilled(r, i, m - 1);
    MoveOne(multiset(r'[..m - 1]), multiset{r[i]}, multiset(r[..m]), gone, all);
  }

  lemma MovedOne(r: seq<Xa>, r': seq<Xa>, i: nat, m: nat, gone: multiset<Xa>, all: multiset<Xa>, id: nat)
    requires i < m <= |r| && Parted(r, i, m, gone, all, id) && r[i].connectionId == id && r' == r[i := r[m - 1]]
    ensures multiset(r'[..m - 1]) + (gone + multiset{r[i]}) == all ==>
      Parted(r', i - 1, m - 1, gone + multiset{r[i]}, all, id)
  {
    assert forall k :: i < k < m - 1 ==> r'[k] == r[k];
  }

  lemma MoveOne(kept: multiset<Xa>, one: multiset<Xa>, before: multiset<Xa>, gone: multiset<Xa>, all: multiset<Xa>)
    requires kept + one == before && before + gone == all
    ensures kept + (gone + one) == all
  {
  }

  lemma PartedOn(r: seq<Xa>, i: nat, m: nat, gone: multiset<Xa>, all: multiset<Xa>, id: nat)
    requires i < m <= |r| && Parted(r, i, m, gone, all, id) && r[i].connectionId != id
    ensures Parted(r, i - 1, m, gone, all, id)
  {
  }

  lemma PartedKeeps(r: seq<Xa>, m: nat, gone: multiset<Xa>, all: multiset<Xa>, id: nat)
    requires m <= |r| && Parted(r, -1, m, gone, all, id)
    ensures forall x :: multiset(r[..m])[x] == if x.connectionId == id then 0 else all[x]
  {
    forall x
      ensures multiset(r[..m])[x] == if x.connectionId == id then 0 else all[x]
    {
      if x.connectionId == id {
        assert x !in r[..m];
      } else {
        assert gone[x] == 0;
      }
    }
  }

  /** One connection is alive: its transactions leave the first `n`. */
  method DropAlive(xas: seq<Xa>, n: nat, id: nat) returns (r: seq<Xa>, m: nat)
    requires n <= |xas|
    ensures m <= |r| == |xas|
    ensures forall x :: multiset(r[..m])[x] == if x.connectionId == id then 0 else multiset(xas[..n])[x]
  {
    r, m := xas, n;
    ghost var all: multiset<Xa>, gone: multiset<Xa> := multiset(xas[..n]), multiset{};
    var i: int := n - 1;
    assert Parted(r, i, m, gone, all, id);
    hide Parted, Filled;
    while i >= 0
      invariant -1 <= i < m <= |r| == |xas|
      invariant Parted(r, i, m, gone, all, id)
    {
      if r[i].connectionId == id {
        PartedMore(r, i, m, gone, all);
        gone := gone + multiset{r[i]};
        m := m - 1;
        r := Filled(r, i, m);
      } else {
        PartedOn(r, i, m, gone, all, id);
      }
      i := i - 1;
    }
    PartedKeeps(r, m, gone, all, id);
  }

  /** The rows that the server lists as alive are gone through one by one. */
  method DropAllAlive(xas: seq<Xa>, rows: seq<nat>) returns (dead: seq<Xa>)
    ensures forall x :: multiset(dead)[x] == if x.connectionId in rows then 0 else multiset(xas)[x]
  {
    var r: seq<Xa>, n: nat := xas, |xas|;
    assert r[..n] == xas;
    for k := 0 to |rows|
      invariant n <= |r|
      invariant forall x :: multiset(r[..n])[x] == if x.connectionId in rows[..k] then 0 else multiset(xas)[x]
    {
      r, n := DropAlive(r, n, rows[k]);
      assert rows[..k + 1] == rows[..k] + [rows[k]];
    }
    dead := r[..n];
    assert rows[..|rows|] == rows;
  }

  /** The transactions of `XA RECOVER` that this library could have made. */
  function Recovered(data: seq<string>): seq<Xa> {
    if data == [] then []
    else
      var last := data[|data| - 1];
      var d := Decode(last);
      Recovered(data[..|data| - 1]) +
        (if d.Some? then [Xa(last, d.value.time, d.value.pid, d.value.connectionId)] else [])
  }

  /** The connections that the server is asked about. */
  predicate Asked(data: seq<string>, id: nat) {
    exists i :: 0 <= i < |Recovered(data)| && Recovered(data)[i].connectionId == id
  }

  /**
   What gets rolled back: exactly the prepared transactions of the library whose ID has the number of
   a connection that is not alive, when the server answers which of the connections it was asked about are
   alive. `runsOn` tells which connection prepared each of them: for that one the cleaner
   decides rightly just when the two connections are both alive or both dead.
   */
  method FindDangling(data: seq<string>, rows: seq<nat>, ghost alive: set<nat>, ghost runsOn: map<string, nat>)
    returns (dangling: seq<Xa>)
    requires forall id :: id in rows <==> id in alive && Asked(data, id)
    ensures forall x :: multiset(dangling)[x] == if x.connectionId in alive then 0 else multiset(Recovered(data))[x]
    ensures forall x :: x in Recovered(data) && x.xaId in runsOn ==>
      ((x in dangling <==> runsOn[x.xaId] !in alive) <==> (x.connectionId in alive <==> runsOn[x.xaId] in alive))
  {
    var xas: seq<Xa> := [];
    for k := 0 to |data|
      invariant xas == Recovered(data[..k])
    {
      assert data[..k + 1][..k] == data[..k];
      var d := Decode(data[k]);
      if d.Some? {
        xas := xas + [Xa(data[k], d.value.time, d.value.pid, d.value.connectionId)];
      }
    }
    assert data[..|data|] == data;
    dangling := DropAllAlive(xas, rows);
    forall x
      ensures multiset(dangling)[x] == if x.connectionId in alive then 0 else multiset(Recovered(data))[x]
    {
      if x in Recovered(data) {
        var i :| 0 <= i < |Recovered(data)| && Recovered(data)[i] == x;
        assert Asked(data, x.connectionId);
      }
    }
    forall x | x in Recovered(data)
      ensures x in dangling <==> x.connectionId !in alive
    {
      assert x in dangling <==> multiset(dangling)[x] > 0;
    }
  }

  /**
   A transaction that a connection of this process prepared: the cleaner reads back the number that was appended to its
   ID.
   */
  lemma OwnIsRecovered(data: seq<string>, time: nat, num: nat, pid: nat, connectionId: nat)
    requires time >= 36 * 36 * 36 * 36
    ensures var id := Id(time, num, pid) + Text(connectionId, 10);
      Recovered(data + [id]) == Recovered(data) + [Xa(id, time, pid, connectionId)]
  {
    hide Id, Text, Decode;
    var id := Id(time, num, pid) + Text(connectionId, 10);
    DecodeId(time, num, pid, connectionId);
    assert (data + [id])[..|data|] == data;
  }

  /** `x` is taken for dangling just when the connection `on` is dead, whichever connections are alive. */
  ghost predicate Rightly(x: Xa, on: nat) {
    forall alive: set<nat> :: x.connectionId !in alive <==> on !in alive
  }

  /**
   The cleaner decides rightly about a transaction that a session sent PREPARE for, just when that
   connection is the one on which its START was first sent. The transactions of the others it can roll back while
   their connections live.
   */
  lemma RightWhenStartedHere(log: seq<TwoPhase.Entry>, k: nat, time: nat, num: nat, pid: nat)
    requires TwoPhase.Safe(log) && k < |log| && log[k].Sent? && log[k].stmt.XaPrepare? && time >= 36 * 36 * 36 * 36
    ensures var id := Id(time, num, pid) + Text(log[k].stmt.id.owner, 10);
      |Recovered([id])| == 1 && (Rightly(Recovered([id])[0], log[k].on) <==> TwoPhase.StartedHere(log, k))
  {
    hide Id, Text, Decode, TwoPhase.Safe, TwoPhase.StartedHere;
    var owner, on := log[k].stmt.id.owner, log[k].on;
    OwnIsRecovered([], time, num, pid, owner);
    var id := Id(time, num, pid) + Text(owner, 10);
    assert [] + [id] == [id];
    TwoPhase.IdNamesConnection(log, k);
    var x := Recovered([id])[0];
    if Rightly(x, on) {
      var alive: set<nat> := {on};
      assert x.connectionId !in alive <==> on !in alive;
    }
  }

  /**
   A transaction runs on the live connection 8 under an ID that has the number 7; the cleaner takes it for dangling.
   */
  method LiveTakenForDangling(time: nat, num: nat, pid: nat) returns (dangling: seq<Xa>)
    requires time >= 36 * 36 * 36 * 36
    ensures dangling == [Xa(Id(time, num, pid) + Text(7, 10), time, pid, 7)]
  {
    hide Id, Text, Decode;
    var id := Id(time, num, pid) + Text(7, 10);
    OwnIsRecovered([], time, num, pid, 7);
    assert [] + [id] == [id];
    dangling := FindDangling([id], [], {8}, map[id := 8]);
    var x := Xa(id, time, pid, 7);
    assert multiset([x]) == multiset{x};
    assert multiset(dangling) == multiset{x};
    assert |dangling| == |multiset(dangling)| == 1 && dangling[0] in multiset(dangling);
  }
}
