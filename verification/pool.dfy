/** Removing from a list by moving the last element into the gap: how the pool cleans its lists. */
module SwapRemove {
  lemma GapFilled<T>(a: seq<T>, i: nat, n: nat)
    requires i <= n < |a|
    ensures multiset(a[i := a[n]][..n]) + multiset{a[i]} == multiset(a[..n + 1])
  {
    var b := a[i := a[n]];
    assert a[..n + 1] == a[..n] + [a[n]];
    if i < n {
      assert a[..n] == a[..i] + [a[i]] + a[i + 1..n];
      assert b[..n] == a[..i] + [a[n]] + a[i + 1..n];
    } else {
      assert b[..n] == a[..n];
    }
  }

  /** Goes from the end to the start; what is dropped is listed in that order. */
  method Filter<T>(s: seq<T>, drop: T -> bool) returns (kept: seq<T>, dropped: seq<T>)
    ensures multiset(kept) + multiset(dropped) == multiset(s)
    ensures forall x :: x in kept ==> !drop(x)
    ensures forall x :: x in dropped ==> drop(x)
  {
    var a, n, i := s, |s|, |s|;
    dropped := [];
    assert a[..n] == s;
    while i > 0
      invariant 0 <= i <= n <= |a|
      invariant forall k :: i <= k < n ==> !drop(a[k])
      invariant forall x :: x in dropped ==> drop(x)
      invariant multiset(a[..n]) + multiset(dropped) == multiset(s)
    {
      i := i - 1;
      if drop(a[i]) {
        n := n - 1;
        GapFilled(a, i, n);
        dropped := dropped + [a[i]];
        a := a[i := a[n]];
      }
    }
    kept := a[..n];
  }
}

/** Sums over the entries of a map. */
module Totals {
  ghost function Total<K(!new)>(m: map<K, nat>): nat
    decreases |m|
  {
    if forall k :: k !in m then 0
    else
      var k :| k in m;
      m[k] + Total(m - {k})
  }

  lemma {:induction false} TotalWithout<K(!new)>(m: map<K, nat>, h: K)
    requires h in m
    ensures Total(m) == m[h] + Total(m - {h})
    decreases |m|
  {
    var k :| k in m && Total(m) == m[k] + Total(m - {k});
    if k != h {
      TotalWithout(m - {k}, h);
      TotalWithout(m - {h}, k);
      assert m - {k} - {h} == m - {h} - {k};
    }
  }

  lemma TotalUpdate<K(!new)>(m: map<K, nat>, h: K, v: nat)
    ensures Total(m[h := v]) == Total(m) - (if h in m then m[h] else 0) + v
  {
    TotalWithout(m[h := v], h);
    if h in m {
      TotalWithout(m, h);
      assert m[h := v] - {h} == m - {h};
    } else {
      assert m[h := v] - {h} == m;
    }
  }

  lemma {:induction false} ZeroTotal<K(!new)>(m: map<K, nat>)
    requires forall k :: k in m ==> m[k] == 0
    ensures Total(m) == 0
    decreases |m|
  {
    if k :| k in m {
      TotalWithout(m, k);
      ZeroTotal(m - {k});
    }
  }

  lemma PartOfTotal<K(!new)>(m: map<K, nat>, h: K)
    requires h in m
    ensures m[h] <= Total(m)
  {
    TotalWithout(m, h);
  }
}

/**
 The connection pool. Each method is one stretch of the program between two places where it
 waits, so any sequence of calls is an interleaving of its tasks.
 */
module Pool {
  import opened Results
  import SwapRemove
  import opened Totals

  const DEFAULT_MAX_CONNS := 250

  /** `object` is the identity of the Dsn object; `hash` covers the schema and the options, `hashNoSchema` the host. */
  datatype Dsn = Dsn(object: nat, hash: int, hashNoSchema: int, hasSchema: bool, maxConns: nat)

  function Limit(maxConns: nat): nat {
    if maxConns == 0 then DEFAULT_MAX_CONNS else maxConns
  }

  /** What the hash of a Dsn tells, as long as nobody edits the Dsn, and no two different ones have the same hash. */
  datatype Terms = Terms(limit: nat, host: int)

  predicate Agrees(d: Dsn, termsOf: int -> Terms) {
    Limit(d.maxConns) == termsOf(d.hash).limit && d.hashNoSchema == termsOf(d.hash).host
  }

  datatype Protocol = Protocol(id: nat, dsn: Dsn, useTill: int, useNTimes: int)

  datatype Waiter = Waiter(id: nat, till: int)

  datatype Protocols = Protocols(
    idle: seq<Protocol>, busy: seq<Protocol>, nConnecting: nat, haveSlotsCallbacks: seq<Waiter>)

  const NOTHING := Protocols([], [], 0, [])

  function InUse(e: Protocols): nat {
    |e.busy| + e.nConnecting
  }

  // ---- counting

  ghost function IdleSizes(es: map<int, Protocols>): map<int, nat> {
    map h | h in es :: |es[h].idle|
  }

  ghost function UsedSizes(es: map<int, Protocols>): map<int, nat> {
    map h | h in es :: InUse(es[h])
  }

  ghost function Idle(es: map<int, Protocols>): nat {
    Total(IdleSizes(es))
  }

  ghost function Used(es: map<int, Protocols>): nat {
    Total(UsedSizes(es))
  }

  ghost function At(es: map<int, Protocols>, h: int): Protocols {
    if h in es then es[h] else NOTHING
  }

  lemma Recount(es: map<int, Protocols>, h: int, e: Protocols)
    ensures Idle(es[h := e]) == Idle(es) - |At(es, h).idle| + |e.idle|
    ensures Used(es[h := e]) == Used(es) - InUse(At(es, h)) + InUse(e)
  {
    TotalUpdate(IdleSizes(es), h, |e.idle|);
    TotalUpdate(UsedSizes(es), h, InUse(e));
    assert IdleSizes(es[h := e]) == IdleSizes(es)[h := |e.idle|];
    assert UsedSizes(es[h := e]) == UsedSizes(es)[h := InUse(e)];
  }

  lemma Uncount(es: map<int, Protocols>, h: int)
    requires h in es && es[h].idle == [] && InUse(es[h]) == 0
    ensures Idle(es - {h}) == Idle(es) && Used(es - {h}) == Used(es)
  {
    TotalWithout(IdleSizes(es), h);
    TotalWithout(UsedSizes(es), h);
    assert IdleSizes(es - {h}) == IdleSizes(es) - {h};
    assert UsedSizes(es - {h}) == UsedSizes(es) - {h};
  }

  lemma NoneIdle(es: map<int, Protocols>)
    requires forall h :: h in es ==> es[h].idle == []
    ensures Idle(es) == 0
  {
    var sizes := IdleSizes(es);
    forall h | h in sizes
      ensures sizes[h] == 0
    {
      assert h in es;
    }
    ZeroTotal(sizes);
  }

  lemma PartOfUsed(es: map<int, Protocols>, h: int)
    ensures InUse(At(es, h)) <= Used(es) && |At(es, h).idle| <= Idle(es)
  {
    if h in es {
      PartOfTotal(UsedSizes(es), h);
      PartOfTotal(IdleSizes(es), h);
    }
  }

  /** Each entry counts the tasks that open a connection for it. */
  ghost predicate Tallied(es: map<int, Protocols>, connecting: multiset<int>) {
    forall h :: connecting[h] == At(es, h).nConnecting
  }

  /** What an entry becomes when somebody gets a slot of it. */
  function Served(e: Protocols, got: Got): Protocols {
    match got
    case Taken(p) => e.(busy := e.busy + [p])
    case Connecting => e.(nConnecting := e.nConnecting + 1)
    case _ => e
  }

  /** Only the lists of idle connections are different: some were taken from their ends. */
  ghost predicate IdleOnly(es: map<int, Protocols>, es': map<int, Protocols>) {
    es'.Keys == es.Keys && forall h :: h in es ==> es'[h] == es[h].(idle := es'[h].idle) && es'[h].idle <= es[h].idle
  }

  lemma IdleOnlyTwice(es: map<int, Protocols>, es': map<int, Protocols>, es'': map<int, Protocols>)
    requires IdleOnly(es, es') && IdleOnly(es', es'')
    ensures IdleOnly(es, es'')
  {
  }

  lemma IdleOnlyPut(es: map<int, Protocols>, h: int, idle: seq<Protocol>)
    requires h in es && idle <= es[h].idle
    ensures IdleOnly(es, es[h := es[h].(idle := idle)])
  {
  }

  lemma PutTwice(es: map<int, Protocols>, h: int, e: Protocols, e': Protocols)
    ensures es[h := e][h := e'] == es[h := e']
  {
  }

  lemma MoreInUse(es: map<int, Protocols>, es': map<int, Protocols>, h: int, got: Got)
    requires IdleOnly(es[h := Served(At(es, h), got)], es')
    ensures forall k :: InUse(At(es, k)) <= InUse(At(es', k))
  {
  }

  lemma IdleOnlySame(es: map<int, Protocols>)
    ensures IdleOnly(es, es)
  {
  }

  lemma IdleOnlyAt(es: map<int, Protocols>, es': map<int, Protocols>, h: int, got: Got)
    requires IdleOnly(es, es') && h in es
    ensures h in es' && es'.Keys == es.Keys && es'[h] == es[h].(idle := es'[h].idle)
    ensures IdleOnly(es[h := Served(es[h], got)], es'[h := Served(es'[h], got)])
  {
  }

  // ---- which host each connection leads to

  /** The connection was opened to this host, and its Dsn is of this host. */
  ghost predicate IsHome(p: Protocol, host: int, hosts: map<nat, int>) {
    p.dsn.hashNoSchema == host && p.id in hosts && hosts[p.id] == host
  }

  ghost predicate AllHome(s: seq<Protocol>, host: int, hosts: map<nat, int>) {
    forall i :: 0 <= i < |s| ==> IsHome(s[i], host, hosts)
  }

  ghost predicate HomedEntry(e: Protocols, host: int, hosts: map<nat, int>) {
    AllHome(e.idle, host, hosts) && AllHome(e.busy, host, hosts)
  }

  /** The lists are the same, or lead to the host. */
  ghost predicate StaysHome(was: Protocols, e: Protocols, host: int, hosts: map<nat, int>) {
    (e.idle == was.idle && e.busy == was.busy) || HomedEntry(e, host, hosts)
  }

  ghost predicate Homed(es: map<int, Protocols>, hosts: map<nat, int>, termsOf: int -> Terms) {
    forall h :: HomedEntry(At(es, h), termsOf(h).host, hosts)
  }

  lemma HomedPut(es: map<int, Protocols>, hosts: map<nat, int>, termsOf: int -> Terms, h: int, e: Protocols)
    requires Homed(es, hosts, termsOf)
    requires StaysHome(At(es, h), e, termsOf(h).host, hosts)
    ensures Homed(es[h := e], hosts, termsOf)
  {
    hide AllHome;
    assert HomedEntry(At(es, h), termsOf(h).host, hosts);
    forall k
      ensures HomedEntry(At(es[h := e], k), termsOf(k).host, hosts)
    {
      assert HomedEntry(At(es, k), termsOf(k).host, hosts);
    }
  }

  lemma HomedWithout(es: map<int, Protocols>, hosts: map<nat, int>, termsOf: int -> Terms, h: int)
    requires Homed(es, hosts, termsOf)
    ensures Homed(es - {h}, hosts, termsOf)
  {
    forall k
      ensures HomedEntry(At(es - {h}, k), termsOf(k).host, hosts)
    {
      assert HomedEntry(At(es, k), termsOf(k).host, hosts);
    }
  }

  lemma HomedGrows(es: map<int, Protocols>, hosts: map<nat, int>, termsOf: int -> Terms, id: nat, host: int)
    requires Homed(es, hosts, termsOf) && id !in hosts
    ensures Homed(es, hosts[id := host], termsOf)
  {
    forall k
      ensures HomedEntry(At(es, k), termsOf(k).host, hosts[id := host])
    {
      assert HomedEntry(At(es, k), termsOf(k).host, hosts);
    }
  }

  lemma PushHome(s: seq<Protocol>, p: Protocol, host: int, hosts: map<nat, int>)
    requires AllHome(s, host, hosts) && IsHome(p, host, hosts)
    ensures AllHome(s + [p], host, hosts)
  {
  }

  lemma SomeHome(s: seq<Protocol>, t: seq<Protocol>, host: int, hosts: map<nat, int>)
    requires AllHome(s, host, hosts) && forall p :: p in t ==> p in s
    ensures AllHome(t, host, hosts)
  {
    forall i | 0 <= i < |t|
      ensures IsHome(t[i], host, hosts)
    {
      assert t[i] in s;
    }
  }

  /** It was idle at `h`. */
  ghost predicate InIdle(es: map<int, Protocols>, id: nat, h: int) {
    exists i :: 0 <= i < |At(es, h).idle| && At(es, h).idle[i].id == id
  }

  /** It was idle, and its Dsn of that host. */
  ghost predicate OnHost(es: map<int, Protocols>, id: nat, host: int) {
    exists h, i :: h in es && 0 <= i < |es[h].idle| && es[h].idle[i].id == id && es[h].idle[i].dsn.hashNoSchema == host
  }

  /** It can be handed out for `dsn`: idle with the same hash, or with the same host when the schema can be changed. */
  ghost predicate FitFor(es: map<int, Protocols>, id: nat, dsn: Dsn) {
    InIdle(es, id, dsn.hash) || (dsn.hasSchema && OnHost(es, id, dsn.hashNoSchema))
  }

  lemma FitEarlier(es: map<int, Protocols>, es': map<int, Protocols>, id: nat, dsn: Dsn)
    requires IdleOnly(es, es') && FitFor(es', id, dsn)
    ensures FitFor(es, id, dsn)
  {
    if InIdle(es', id, dsn.hash) {
      var i :| 0 <= i < |At(es', dsn.hash).idle| && At(es', dsn.hash).idle[i].id == id;
      assert At(es, dsn.hash).idle[i] == At(es', dsn.hash).idle[i];
    } else {
      var h, i :| h in es' && 0 <= i < |es'[h].idle| && es'[h].idle[i].id == id
        && es'[h].idle[i].dsn.hashNoSchema == dsn.hashNoSchema;
      assert es[h].idle[i] == es'[h].idle[i];
    }
  }

  // ---- where each connection is

  datatype Place = IdleAt(h: int) | BusyAt(h: int)

  /** The connections that somebody uses. */
  ghost function BusyIds(place: map<nat, Place>): set<nat> {
    set id | id in place && place[id].BusyAt?
  }

  lemma IdleGone(place: map<nat, Place>, ids: set<nat>)
    requires forall id :: id in ids && id in place ==> place[id].IdleAt?
    ensures BusyIds(place - ids) == BusyIds(place)
  {
  }

  lemma BusyPlaced(place: map<nat, Place>, id: nat, h: int)
    ensures BusyIds(place[id := BusyAt(h)]) == BusyIds(place) + {id}
    ensures id !in place ==> id !in BusyIds(place) && BusyIds(place[id := IdleAt(h)]) == BusyIds(place)
    ensures BusyIds(place - {id}) == BusyIds(place) - {id}
  {
  }

  ghost predicate AllAt(s: seq<Protocol>, p: Place, place: map<nat, Place>) {
    && (forall i :: 0 <= i < |s| ==> s[i].id in place && place[s[i].id] == p && s[i].dsn.hash == p.h)
    && (forall i, j :: 0 <= i < j < |s| ==> s[i].id != s[j].id)
  }

  ghost predicate EntryOk(e: Protocols, h: int, limit: nat, queue: nat, place: map<nat, Place>, ticking: bool) {
    && InUse(e) <= limit && |e.haveSlotsCallbacks| <= queue
    && AllAt(e.idle, IdleAt(h), place) && AllAt(e.busy, BusyAt(h), place)
    && (e.idle != [] || e.busy != [] ==> ticking)
  }

  /** What is not at `h` stays where it is. */
  ghost predicate Elsewhere(place: map<nat, Place>, place': map<nat, Place>, h: int) {
    forall id :: id in place && place[id].h != h ==> id in place' && place'[id] == place[id]
  }

  lemma OthersOk(e: Protocols, k: int, limit: nat, queue: nat, place: map<nat, Place>, place': map<nat, Place>, h: int,
      ticking: bool, ticking': bool)
    requires EntryOk(e, k, limit, queue, place, ticking) && Elsewhere(place, place', h) && k != h
    requires ticking ==> ticking'
    ensures EntryOk(e, k, limit, queue, place', ticking')
  {
  }

  lemma ClearedOk(e: Protocols, h: int, limit: nat, queue: nat, place: map<nat, Place>, ticking: bool)
    requires EntryOk(e, h, limit, queue, place, ticking)
    ensures EntryOk(e.(haveSlotsCallbacks := []), h, limit, queue, place, ticking)
    ensures InUse(e) <= limit
  {
  }

  lemma StoppedOk(e: Protocols, h: int, limit: nat, queue: nat, place: map<nat, Place>, ticking: bool)
    requires EntryOk(e, h, limit, queue, place, ticking) && e.idle == [] && e.busy == []
    ensures EntryOk(e, h, limit, queue, place, false)
  {
  }

  lemma TickingOk(e: Protocols, h: int, limit: nat, queue: nat, place: map<nat, Place>, ticking: bool)
    requires EntryOk(e, h, limit, queue, place, ticking)
    ensures EntryOk(e, h, limit, queue, place, true)
  {
  }

  lemma WaitersOk(e: Protocols, h: int, limit: nat, queue: nat, place: map<nat, Place>, ticking: bool, ws: seq<Waiter>)
    requires EntryOk(e, h, limit, queue, place, ticking)
    ensures |e.haveSlotsCallbacks| <= queue
    ensures |ws| <= queue ==> EntryOk(e.(haveSlotsCallbacks := ws), h, limit, queue, place, ticking)
  {
  }

  lemma ConnectingOk(e: Protocols, h: int, limit: nat, queue: nat, place: map<nat, Place>, ticking: bool)
    requires EntryOk(e, h, limit, queue, place, ticking)
    ensures InUse(e) < limit ==> EntryOk(e.(nConnecting := e.nConnecting + 1), h, limit, queue, place, ticking)
    ensures e.nConnecting > 0 ==>
      var d := e.(nConnecting := e.nConnecting - 1); EntryOk(d, h, limit, queue, place, ticking) && InUse(d) < limit
  {
  }

  lemma PopOk(e: Protocols, h: int, limit: nat, queue: nat, place: map<nat, Place>, ticking: bool)
    requires EntryOk(e, h, limit, queue, place, ticking) && e.idle != []
    ensures var last := |e.idle| - 1;
      var place' := place - {e.idle[last].id};
      && EntryOk(e.(idle := e.idle[..last]), h, limit, queue, place', ticking)
      && Elsewhere(place, place', h) && e.idle[last].dsn.hash == h
      && e.idle[last].id in place && place[e.idle[last].id] == IdleAt(h)
  {
  }

  lemma PushBusyOk(e: Protocols, h: int, limit: nat, queue: nat, place: map<nat, Place>, p: Protocol)
    requires EntryOk(e, h, limit, queue, place, true) && InUse(e) < limit && p.id !in place && p.dsn.hash == h
    ensures var place' := place[p.id := BusyAt(h)];
      EntryOk(e.(busy := e.busy + [p]), h, limit, queue, place', true) && Elsewhere(place, place', h)
  {
    PlacedLast(e.busy, p, BusyAt(h), place);
  }

  lemma PushIdleOk(e: Protocols, h: int, limit: nat, queue: nat, place: map<nat, Place>, p: Protocol)
    requires EntryOk(e, h, limit, queue, place, true) && p.id !in place && p.dsn.hash == h
    ensures var place' := place[p.id := IdleAt(h)];
      EntryOk(e.(idle := e.idle + [p]), h, limit, queue, place', true) && Elsewhere(place, place', h)
  {
    PlacedLast(e.idle, p, IdleAt(h), place);
  }

  lemma ReleaseOk(e: Protocols, h: int, limit: nat, queue: nat, place: map<nat, Place>, ticking: bool, i: nat)
    requires EntryOk(e, h, limit, queue, place, ticking) && i < |e.busy|
    ensures var place' := place - {e.busy[i].id};
      EntryOk(e.(busy := Without(e.busy, i)), h, limit, queue, place', ticking) && Elsewhere(place, place', h)
    ensures ticking && e.busy[i].id in place && place[e.busy[i].id] == BusyAt(h)
  {
    PlacedWithout(e.busy, i, BusyAt(h), place);
  }

  lemma PlacedLast(s: seq<Protocol>, q: Protocol, p: Place, place: map<nat, Place>)
    requires AllAt(s, p, place) && (q.id in place ==> place[q.id] != p) && q.dsn.hash == p.h
    ensures AllAt(s + [q], p, place[q.id := p])
  {
  }

  /** The element `i` is replaced with the last one. */
  function Without<T>(s: seq<T>, i: nat): seq<T>
    requires i < |s|
  {
    s[i := s[|s| - 1]][..|s| - 1]
  }

  lemma PlacedWithout(s: seq<Protocol>, i: nat, p: Place, place: map<nat, Place>)
    requires AllAt(s, p, place) && i < |s|
    ensures AllAt(Without(s, i), p, place - {s[i].id})
  {
    var r, last := Without(s, i), |s| - 1;
    assert forall k :: 0 <= k < last ==> r[k] == s[if k == i then last else k];
  }

  /** Only the element `i` is gone. */
  lemma WithoutOne<T>(s: seq<T>, i: nat)
    requires i < |s|
    ensures multiset(Without(s, i)) == multiset(s) - multiset{s[i]}
  {
    SwapRemove.GapFilled(s, i, |s| - 1);
    assert s[..|s| - 1 + 1] == s;
  }

  // ---- some of the idle connections go

  ghost predicate DistinctIds(s: seq<Protocol>) {
    forall i, j :: 0 <= i < j < |s| ==> s[i].id != s[j].id
  }

  lemma {:induction false} Once(s: seq<Protocol>, x: Protocol)
    requires DistinctIds(s)
    ensures multiset(s)[x] <= 1
    ensures s != [] && multiset(s[..|s| - 1])[x] == 1 ==> s[|s| - 1] != x
  {
    if s != [] {
      var init := s[..|s| - 1];
      Once(init, x);
      assert s == init + [s[|s| - 1]];
      if x in init {
        var i :| 0 <= i < |init| && init[i] == x;
        assert s[i] == x;
      }
    }
  }

  lemma Twice(s: seq<Protocol>, i: nat, j: nat)
    requires i < j < |s| && s[i] == s[j]
    ensures multiset(s)[s[i]] >= 2
  {
    assert s == s[..j] + s[j..];
    assert s[..j][i] == s[i] && s[j..][0] == s[i];
  }

  lemma PermutedIds(s: seq<Protocol>, t: seq<Protocol>)
    requires multiset(s) == multiset(t) && DistinctIds(s)
    ensures DistinctIds(t)
  {
    forall i, j | 0 <= i < j < |t|
      ensures t[i].id != t[j].id
    {
      Once(s, t[i]);
      if t[i] == t[j] {
        Twice(t, i, j);
      } else {
        assert t[i] in multiset(t) && t[j] in multiset(t);
        var a :| 0 <= a < |s| && s[a] == t[i];
        var b :| 0 <= b < |s| && s[b] == t[j];
      }
    }
  }

  ghost function Ids(s: seq<Protocol>): set<nat> {
    set i | 0 <= i < |s| :: s[i].id
  }

  lemma KeptOk(e: Protocols, kept: seq<Protocol>, dropped: seq<Protocol>, h: int, limit: nat, queue: nat,
      place: map<nat, Place>, ticking: bool)
    requires EntryOk(e, h, limit, queue, place, ticking) && multiset(kept) + multiset(dropped) == multiset(e.idle)
    ensures EntryOk(e.(idle := kept), h, limit, queue, place - Ids(dropped), ticking)
    ensures Elsewhere(place, place - Ids(dropped), h) && |kept| + |dropped| == |e.idle|
    ensures forall id :: id in Ids(dropped) ==> id in place && place[id] == IdleAt(h)
  {
    PlacedKept(e.idle, kept, dropped, IdleAt(h), place);
  }

  lemma PlacedKept(s: seq<Protocol>, kept: seq<Protocol>, dropped: seq<Protocol>, p: Place, place: map<nat, Place>)
    requires AllAt(s, p, place) && multiset(kept) + multiset(dropped) == multiset(s)
    ensures AllAt(kept, p, place - Ids(dropped)) && |kept| + |dropped| == |s|
    ensures forall i :: 0 <= i < |dropped| ==> dropped[i].id in place && place[dropped[i].id] == p
  {
    var all := kept + dropped;
    assert |multiset(all)| == |multiset(s)|;
    PermutedIds(s, all);
    forall i | 0 <= i < |all|
      ensures all[i].id in place && place[all[i].id] == p && all[i].dsn.hash == p.h
    {
      assert all[i] in multiset(s);
    }
    assert forall i :: 0 <= i < |kept| ==> all[i] == kept[i];
    assert forall i :: 0 <= i < |dropped| ==> all[|kept| + i] == dropped[i];
  }

  // ---- who is woken

  /** What `DecNBusyAll` compares: the number of connections of all DSNs with the limit of one. */
  ghost predicate Wakes(es: map<int, Protocols>, nClosing: nat, limit: nat) {
    Used(es) + nClosing < limit
  }

  /** With one DSN in the pool, and nothing being closed, those who wait are woken just when there is a free slot. */
  lemma OneDsnWakes(es: map<int, Protocols>, h: int, limit: nat)
    requires es.Keys == {h}
    ensures Wakes(es, 0, limit) <==> InUse(es[h]) < limit
  {
    TotalWithout(UsedSizes(es), h);
    assert UsedSizes(es) - {h} == map[];
  }

  /** With others, they sleep on though a slot of theirs is free, while the others are busy with `limit` connections. */
  lemma LostWakeUp(es: map<int, Protocols>, h: int, k: int, limit: nat)
    requires h in es && k in es && h != k && InUse(es[k]) >= limit
    ensures !Wakes(es, 0, limit)
  {
    PartOfUsed(es, k);
  }

  /** For instance: a free slot, somebody who waits for it, and one busy connection elsewhere. */
  lemma LostWakeUpExample(w: Waiter, p: Protocol)
    ensures var es := map[1 := Protocols([], [], 0, [w]), 2 := Protocols([], [p], 0, [])];
      InUse(es[1]) < 1 && es[1].haveSlotsCallbacks == [w] && !Wakes(es, 0, 1)
  {
    var es := map[1 := Protocols([], [], 0, [w]), 2 := Protocols([], [p], 0, [])];
    LostWakeUp(es, 1, 2, 1);
  }

  // ---- who has which connection

  /** A connection in somebody's hands: its number, and the Dsn that it was handed out for. */
  datatype Lease = Lease(id: nat, dsn: Dsn)

  function LeaseOf(p: Protocol): Lease {
    Lease(p.id, p.dsn)
  }

  predicate Leased(busy: seq<Protocol>, l: Lease) {
    exists i :: 0 <= i < |busy| && LeaseOf(busy[i]) == l
  }

  /** How many times the lease is on the books: once, or not at all. */
  ghost function Uses(es: map<int, Protocols>, l: Lease): nat {
    if Leased(At(es, l.dsn.hash).busy, l) then 1 else 0
  }

  /** `held` was handed out. */
  ghost predicate Handed(es: map<int, Protocols>, held: multiset<Lease>, es': map<int, Protocols>) {
    forall l :: Uses(es', l) == Uses(es, l) + held[l]
  }

  /** Each connection in use has one holder, and nobody else holds any. */
  ghost predicate HeldBy(es: map<int, Protocols>, holders: multiset<Lease>) {
    forall l :: holders[l] == Uses(es, l)
  }

  lemma HandedTwice(es: map<int, Protocols>, a: multiset<Lease>, es': map<int, Protocols>, b: multiset<Lease>,
      es'': map<int, Protocols>)
    requires Handed(es, a, es') && Handed(es', b, es'')
    ensures Handed(es, a + b, es'')
  {
    hide Uses;
  }

  lemma HandedOn(es: map<int, Protocols>, held: multiset<Lease>, es': map<int, Protocols>, holders: multiset<Lease>)
    requires Handed(es, held, es')
    ensures HeldBy(es, holders) ==> HeldBy(es', holders + held)
  {
    hide Uses;
  }

  ghost predicate SameBusy(es: map<int, Protocols>, es': map<int, Protocols>) {
    forall h :: At(es', h).busy == At(es, h).busy
  }

  lemma NobodyServed(es: map<int, Protocols>, es': map<int, Protocols>)
    requires SameBusy(es, es')
    ensures Handed(es, multiset{}, es')
  {
    hide Leased;
  }

  lemma SameIsSame(es: map<int, Protocols>)
    ensures Handed(es, multiset{}, es)
  {
  }

  function HeldOf(got: Got): multiset<Lease> {
    if got.Taken? then multiset{LeaseOf(got.p)} else multiset{}
  }

  /** A connection that was not in use is handed out. */
  lemma OneServed(es: map<int, Protocols>, es': map<int, Protocols>, h: int, p: Protocol)
    requires p.dsn.hash == h && Uses(es, LeaseOf(p)) == 0
    requires At(es', h).busy == At(es, h).busy + [p] && forall k :: k != h ==> At(es', k).busy == At(es, k).busy
    ensures Handed(es, multiset{LeaseOf(p)}, es')
  {
    var busy := At(es, h).busy;
    forall l: Lease
      ensures Uses(es', l) == Uses(es, l) + multiset{LeaseOf(p)}[l]
    {
      PushedLease(busy, p, l);
    }
  }

  lemma PushedLease(busy: seq<Protocol>, p: Protocol, l: Lease)
    ensures Leased(busy + [p], l) <==> Leased(busy, l) || l == LeaseOf(p)
  {
    var all := busy + [p];
    assert all[|busy|] == p && forall i :: 0 <= i < |busy| ==> all[i] == busy[i];
  }

  lemma ServedBusy(es: map<int, Protocols>, es': map<int, Protocols>, h: int, got: Got)
    requires IdleOnly(es[h := Served(At(es, h), got)], es')
    ensures At(es', h).busy == Served(At(es, h), got).busy
    ensures forall k :: k != h ==> At(es', k).busy == At(es, k).busy
  {
  }

  lemma LeaseServed(es: map<int, Protocols>, es': map<int, Protocols>, h: int, got: Got)
    requires if got.Taken? || got.Connecting? then IdleOnly(es[h := Served(At(es, h), got)], es')
      else es' == es[h := At(es, h).(haveSlotsCallbacks := At(es', h).haveSlotsCallbacks)]
    requires got.Taken? ==> got.p.dsn.hash == h && Uses(es, LeaseOf(got.p)) == 0
    ensures Handed(es, HeldOf(got), es')
  {
    hide IdleOnly, Uses, Leased;
    if got.Taken? || got.Connecting? {
      ServedBusy(es, es', h, got);
    }
    if got.Taken? {
      OneServed(es, es', h, got.p);
    } else {
      NobodyServed(es, es');
    }
  }

  /** One of the connections in use is released. */
  lemma OneReleased(busy: seq<Protocol>, rest: seq<Protocol>, p: Protocol, l: Lease)
    requires DistinctIds(busy) && p in busy && multiset(rest) == multiset(busy) - multiset{p}
    ensures Leased(rest, l) <==> Leased(busy, l) && l != LeaseOf(p)
  {
    if Leased(rest, l) {
      var i :| 0 <= i < |rest| && LeaseOf(rest[i]) == l;
      assert rest[i] in multiset(rest);
      assert rest[i] in busy;
      Once(busy, p);
      assert multiset(rest)[p] == 0;
    }
    if Leased(busy, l) && l != LeaseOf(p) {
      var i :| 0 <= i < |busy| && LeaseOf(busy[i]) == l;
      assert busy[i] in multiset(busy);
      assert busy[i] in multiset(rest);
      assert busy[i] in rest;
    }
  }

  /** Giving back `p` takes a connection from somebody: `p` is not among those that are held, and one of its Dsn is. */
  ghost predicate TakesAnothers(p: Protocol, holders: multiset<Lease>) {
    && LeaseOf(p) !in holders
    && exists l :: l in holders && (l.dsn == p.dsn || (l.id == p.id && l.dsn.hash == p.dsn.hash))
  }

  /** Who holds a connection is connected to the host of the Dsn that it was handed out for. */
  ghost predicate AtHosts(held: multiset<Lease>, hosts: map<nat, int>) {
    forall l :: l in held ==> l.id in hosts && hosts[l.id] == l.dsn.hashNoSchema
  }

  // ---- the pool

  datatype Got = Refused | Asleep(w: Waiter) | Taken(p: Protocol) | Connecting

  class Pool {
    const termsOf: int -> Terms
    const maxConnsWaitQueue: nat
    var protocolsPerSchema: map<int, Protocols>
    var nIdleAll: int
    var nBusyAll: int
    var useCnt: nat
    var ended: bool
    /** The interval that closes idle connections is running. */
    var ticking: bool
    var takeCareOfDisconneced: seq<Dsn>
    var lastWaiter: nat
    /**
     The tasks that are in the middle of something: those that open a connection, those that close one (of an
     entry, or of none if it is forgotten already), and those that sleep until they are woken or their time comes.
     */
    var connecting: multiset<int>
    var closing: multiset<Option<int>>
    var asleep: multiset<int>
    ghost var place: map<nat, Place>
    /** The host that each connection was opened to. */
    ghost var hosts: map<nat, int>

    ghost predicate Counted(extra: int)
      reads this
    {
      nIdleAll == Idle(protocolsPerSchema) && nBusyAll == Used(protocolsPerSchema) + |closing| + extra
    }

    ghost predicate Placed()
      reads this
    {
      && (forall h :: h in protocolsPerSchema ==>
            EntryOk(protocolsPerSchema[h], h, termsOf(h).limit, maxConnsWaitQueue, place, ticking))
      && (forall h :: h in asleep ==> h in protocolsPerSchema)
      && (forall h :: Some(h) in closing ==> h in protocolsPerSchema)
    }

    ghost predicate EntriesOk()
      reads this
    {
      Placed() && Tallied(protocolsPerSchema, connecting) && Homed(protocolsPerSchema, hosts, termsOf)
    }

    ghost predicate Valid()
      reads this
    {
      Counted(0) && EntriesOk()
    }

    constructor (termsOf: int -> Terms, maxConnsWaitQueue: nat)
      ensures Valid() && protocolsPerSchema == map[] && place == map[] && connecting == multiset{} && Empty()
      ensures hosts == map[]
      ensures this.termsOf == termsOf && this.maxConnsWaitQueue == maxConnsWaitQueue
    {
      this.termsOf, this.maxConnsWaitQueue := termsOf, maxConnsWaitQueue;
      protocolsPerSchema, nIdleAll, nBusyAll := map[], 0, 0;
      useCnt, ended, ticking, takeCareOfDisconneced, lastWaiter := 0, false, false, [], 0;
      connecting, closing, asleep, place := multiset{}, multiset{}, multiset{}, map[];
      hosts := map[];
    }

    /** One entry changes, and the places of its connections. */
    method Put(h: int, e: Protocols, ghost place': map<nat, Place>)
      requires Placed()
      requires EntryOk(e, h, termsOf(h).limit, maxConnsWaitQueue, place', ticking) && Elsewhere(place, place', h)
      modifies this`protocolsPerSchema, this`place
      ensures Placed() && protocolsPerSchema == old(protocolsPerSchema)[h := e] && place == place'
      ensures Idle(protocolsPerSchema) ==
        old(Idle(protocolsPerSchema)) - |At(old(protocolsPerSchema), h).idle| + |e.idle|
      ensures Used(protocolsPerSchema) ==
        old(Used(protocolsPerSchema)) - InUse(At(old(protocolsPerSchema), h)) + InUse(e)
      ensures e.nConnecting == At(old(protocolsPerSchema), h).nConnecting ==>
        old(Tallied(protocolsPerSchema, connecting)) ==> Tallied(protocolsPerSchema, connecting)
      ensures StaysHome(At(old(protocolsPerSchema), h), e, termsOf(h).host, hosts) ==>
        old(Homed(protocolsPerSchema, hosts, termsOf)) ==> Homed(protocolsPerSchema, hosts, termsOf)
    {
      hide EntryOk, Idle, Used, Elsewhere, Homed, HomedEntry;
      if Homed(protocolsPerSchema, hosts, termsOf)
        && StaysHome(At(protocolsPerSchema, h), e, termsOf(h).host, hosts) {
        HomedPut(protocolsPerSchema, hosts, termsOf, h, e);
      }
      Recount(protocolsPerSchema, h, e);
      forall k | k in protocolsPerSchema && k != h
        ensures EntryOk(protocolsPerSchema[k], k, termsOf(k).limit, maxConnsWaitQueue, place', ticking)
      {
        OthersOk(protocolsPerSchema[k], k, termsOf(k).limit, maxConnsWaitQueue, place, place', h, ticking, ticking);
      }
      protocolsPerSchema := protocolsPerSchema[h := e];
      place := place';
    }

    /**
     A connection of `h` was released. All its waiters are woken or none; they are woken just when
     the pool as a whole is busy with fewer connections than the limit of this DSN.
     */
    method DecNBusyAll(h: int) returns (woken: seq<Waiter>)
      requires EntriesOk() && Counted(1)
      modifies this`protocolsPerSchema, this`place, this`nBusyAll, this`ticking, this`ended
      ensures Valid() && nBusyAll == old(nBusyAll) - 1 && place == old(place)
      ensures woken ==
        if Wakes(protocolsPerSchema, |closing|, termsOf(h).limit) then At(old(protocolsPerSchema), h).haveSlotsCallbacks
        else []
      ensures woken != [] ==> h in protocolsPerSchema && InUse(protocolsPerSchema[h]) < termsOf(h).limit
      ensures protocolsPerSchema == if woken == [] then old(protocolsPerSchema)
        else old(protocolsPerSchema)[h := old(protocolsPerSchema)[h].(haveSlotsCallbacks := [])]
      ensures ticking == (old(ticking) && !(At(old(protocolsPerSchema), h).haveSlotsCallbacks == [] && Empty()))
      ensures ended && !old(ended) ==> useCnt == 0 && nBusyAll == 0
    {
      hide Tallied, Homed, EntryOk, Idle, Used;
      nBusyAll := nBusyAll - 1;
      PartOfUsed(protocolsPerSchema, h);
      woken := if h in protocolsPerSchema then protocolsPerSchema[h].haveSlotsCallbacks else [];
      if woken == [] {
        AllReleased();
      } else if nBusyAll < termsOf(h).limit {
        ClearedOk(protocolsPerSchema[h], h, termsOf(h).limit, maxConnsWaitQueue, place, ticking);
        Put(h, protocolsPerSchema[h].(haveSlotsCallbacks := []), place);
      } else {
        woken := [];
      }
    }

    /** Nothing is left that the interval could do. */
    predicate Empty()
      reads this`nBusyAll, this`nIdleAll, this`takeCareOfDisconneced
    {
      nBusyAll == 0 && nIdleAll == 0 && takeCareOfDisconneced == []
    }

    /** Nobody waits. When the last connection was released, the interval has nothing to do, and the pool can end. */
    method AllReleased()
      requires Valid()
      modifies this`ticking, this`ended
      ensures Valid()
      ensures ended == (old(ended) || (nBusyAll == 0 && useCnt == 0))
      ensures ticking == (old(ticking) && !Empty())
    {
      if nBusyAll == 0 {
        if nIdleAll + |takeCareOfDisconneced| == 0 {
          IdleNotNegative();
          StopTicking();
        }
        if useCnt == 0 {
          ended := true;
        }
      }
    }

    lemma IdleNotNegative()
      requires Valid()
      ensures nIdleAll >= 0 && nBusyAll >= 0
    {
    }

    /** One connection was to be asked for, nothing was open: it is being opened now. */
    lemma OnlyOneAsked(dsn: Dsn)
      requires Valid() && place.Keys == {} && termsOf(dsn.hash).limit > 0 && |connecting| + |takeCareOfDisconneced| == 1
      requires forall d :: d in takeCareOfDisconneced ==>
        d == dsn && InUse(At(protocolsPerSchema, d.hash)) >= termsOf(d.hash).limit
      requires forall h :: h in connecting ==> h == dsn.hash
      ensures takeCareOfDisconneced == [] && connecting[dsn.hash] == 1 && Used(protocolsPerSchema) > 0
    {
      hide EntryOk, Idle, Used;
      var h := dsn.hash;
      NobodyBusy(h);
      PartOfUsed(protocolsPerSchema, h);
      FirstIsIn(takeCareOfDisconneced);
      NoneOf(connecting, h);
    }

    lemma NobodyBusy(h: int)
      requires EntriesOk()
      ensures place.Keys == {} ==> At(protocolsPerSchema, h).busy == []
    {
      var e := At(protocolsPerSchema, h);
      assert h in protocolsPerSchema ==> EntryOk(e, h, termsOf(h).limit, maxConnsWaitQueue, place, ticking);
      assert |e.busy| > 0 ==> e.busy[0].id in place;
    }

    lemma Within()
      requires Valid()
      ensures forall h :: h in protocolsPerSchema ==>
        && InUse(protocolsPerSchema[h]) <= termsOf(h).limit
        && |protocolsPerSchema[h].haveSlotsCallbacks| <= maxConnsWaitQueue
        && connecting[h] == protocolsPerSchema[h].nConnecting
      ensures Counted(0)
    {
      hide Idle, Used, InUse;
      forall h | h in protocolsPerSchema
        ensures InUse(protocolsPerSchema[h]) <= termsOf(h).limit
        ensures |protocolsPerSchema[h].haveSlotsCallbacks| <= maxConnsWaitQueue
      {
        assert EntryOk(protocolsPerSchema[h], h, termsOf(h).limit, maxConnsWaitQueue, place, ticking);
      }
    }

    /** With nothing counted there are no connections to look after. */
    method StopTicking()
      requires Valid() && nIdleAll == 0 && nBusyAll == 0
      modifies this`ticking
      ensures Valid() && !ticking
    {
      hide Tallied, Homed, EntryOk, Idle, Used;
      forall h | h in protocolsPerSchema
        ensures EntryOk(protocolsPerSchema[h], h, termsOf(h).limit, maxConnsWaitQueue, place, false)
      {
        PartOfUsed(protocolsPerSchema, h);
        StoppedOk(protocolsPerSchema[h], h, termsOf(h).limit, maxConnsWaitQueue, place, ticking);
      }
      ticking := false;
    }

    method StartTicking()
      requires EntriesOk()
      modifies this`ticking
      ensures EntriesOk() && ticking
    {
      hide EntryOk;
      forall h | h in protocolsPerSchema
        ensures EntryOk(protocolsPerSchema[h], h, termsOf(h).limit, maxConnsWaitQueue, place, true)
      {
        TickingOk(protocolsPerSchema[h], h, termsOf(h).limit, maxConnsWaitQueue, place, ticking);
      }
      ticking := true;
    }

    /** The part of closing a connection before the wait, and after it. */
    method CloseConn(h: int)
      requires EntriesOk() && h in protocolsPerSchema
      modifies this`nBusyAll, this`closing
      ensures EntriesOk() && nBusyAll == old(nBusyAll) + 1 && closing == old(closing) + multiset{Some(h)}
    {
      nBusyAll := nBusyAll + 1;
      closing := closing + multiset{Some(h)};
    }

    /** With an entry that was forgotten meanwhile, nobody is left to wake. */
    method ConnClosed(h: Option<int>) returns (woken: seq<Waiter>)
      requires Valid() && h in closing
      modifies this`protocolsPerSchema, this`place, this`nBusyAll, this`ticking, this`ended, this`closing
      ensures Valid() && place == old(place) && closing == old(closing) - multiset{h} && nBusyAll == old(nBusyAll) - 1
      ensures woken == [] ==> protocolsPerSchema == old(protocolsPerSchema)
      ensures woken != [] ==>
        && h.Some? && h.value in old(protocolsPerSchema)
        && InUse(old(protocolsPerSchema)[h.value]) < termsOf(h.value).limit
        && woken == old(protocolsPerSchema)[h.value].haveSlotsCallbacks
        && protocolsPerSchema ==
             old(protocolsPerSchema)[h.value := old(protocolsPerSchema)[h.value].(haveSlotsCallbacks := [])]
      ensures SameBusy(old(protocolsPerSchema), protocolsPerSchema)
    {
      hide Tallied, Homed, EntryOk, Idle, Used;
      closing := closing - multiset{h};
      if h.Some? {
        woken := DecNBusyAll(h.value);
      } else {
        woken := [];
        nBusyAll := nBusyAll - 1;
        AllReleased();
      }
    }

    /** Those whose time has come leave the queue. */
    method CloseHaveSlotsTimedOut(h: int, now: int) returns (woken: seq<Waiter>)
      requires EntriesOk() && h in protocolsPerSchema
      modifies this`protocolsPerSchema, this`place
      ensures EntriesOk() && place == old(place) && Idle(protocolsPerSchema) == old(Idle(protocolsPerSchema))
      ensures Used(protocolsPerSchema) == old(Used(protocolsPerSchema))
      ensures exists rest: seq<Waiter> ::
        && protocolsPerSchema == old(protocolsPerSchema)[h := old(protocolsPerSchema)[h].(haveSlotsCallbacks := rest)]
        && multiset(rest) + multiset(woken) == multiset(old(protocolsPerSchema)[h].haveSlotsCallbacks)
        && (forall w :: w in rest ==> now < w.till)
      ensures forall w :: w in woken ==> w.till <= now
    {
      hide Tallied, Homed, EntryOk, Idle, Used;
      var e := protocolsPerSchema[h];
      var rest;
      rest, woken := SwapRemove.Filter(e.haveSlotsCallbacks, (w: Waiter) => now >= w.till);
      assert |multiset(rest)| + |multiset(woken)| == |multiset(e.haveSlotsCallbacks)|;
      WaitersOk(e, h, termsOf(h).limit, maxConnsWaitQueue, place, ticking, rest);
      Put(h, e.(haveSlotsCallbacks := rest), place);
    }

    /** A place in the queue of `h`, until `till` at most; none if the queue is full. */
    method WaitHaveSlots(h: int, now: int, till: int, reconnectInterval: int)
      returns (r: Option<Waiter>, woken: seq<Waiter>)
      requires Valid() && h in protocolsPerSchema
      modifies this`protocolsPerSchema, this`place, this`lastWaiter, this`asleep
      ensures Valid() && place == old(place) && h in protocolsPerSchema
      ensures protocolsPerSchema == old(protocolsPerSchema)[h :=
        old(protocolsPerSchema)[h].(haveSlotsCallbacks := protocolsPerSchema[h].haveSlotsCallbacks)]
      ensures r.None? ==> |protocolsPerSchema[h].haveSlotsCallbacks| == maxConnsWaitQueue && asleep == old(asleep)
      ensures r.Some? ==> r.value in protocolsPerSchema[h].haveSlotsCallbacks && asleep == old(asleep) + multiset{h}
    {
      hide Tallied, Homed, EntryOk, Idle, Used;
      woken := CloseHaveSlotsTimedOut(h, now);
      var e := protocolsPerSchema[h];
      WaitersOk(e, h, termsOf(h).limit, maxConnsWaitQueue, place, ticking, e.haveSlotsCallbacks);
      if |e.haveSlotsCallbacks| >= maxConnsWaitQueue {
        return None, woken;
      }
      lastWaiter := lastWaiter + 1;
      var w := Waiter(lastWaiter, if till < now + reconnectInterval then till else now + reconnectInterval);
      WaitersOk(e, h, termsOf(h).limit, maxConnsWaitQueue, place, ticking, e.haveSlotsCallbacks + [w]);
      Put(h, e.(haveSlotsCallbacks := e.haveSlotsCallbacks + [w]), place);
      asleep := asleep + multiset{h};
      r := Some(w);
    }

    /** Takes the last idle connection of `h` off its list. It is not counted yet. */
    method PopIdle(h: int) returns (p: Protocol)
      requires EntriesOk() && h in protocolsPerSchema && protocolsPerSchema[h].idle != []
      modifies this`protocolsPerSchema, this`place
      ensures EntriesOk() && h in protocolsPerSchema
      ensures old(protocolsPerSchema)[h].idle == protocolsPerSchema[h].idle + [p]
      ensures protocolsPerSchema ==
        old(protocolsPerSchema)[h := old(protocolsPerSchema)[h].(idle := protocolsPerSchema[h].idle)]
      ensures Idle(protocolsPerSchema) == old(Idle(protocolsPerSchema)) - 1
      ensures Used(protocolsPerSchema) == old(Used(protocolsPerSchema))
      ensures p.id in old(place) && old(place)[p.id] == IdleAt(h) && place == old(place) - {p.id} && p.dsn.hash == h
      ensures IsHome(p, termsOf(h).host, hosts)
    {
      hide Tallied, Homed, EntryOk, Idle, Used, Elsewhere, IsHome, AllHome;
      var e := protocolsPerSchema[h];
      Home(h);
      SomeHome(e.idle, e.idle[..|e.idle| - 1], termsOf(h).host, hosts);
      SomeHome(e.idle, [e.idle[|e.idle| - 1]], termsOf(h).host, hosts);
      assert IsHome([e.idle[|e.idle| - 1]][0], termsOf(h).host, hosts) by { FirstHome([e.idle[|e.idle| - 1]], h); }
      p := e.idle[|e.idle| - 1];
      PopOk(e, h, termsOf(h).limit, maxConnsWaitQueue, place, ticking);
      Put(h, e.(idle := e.idle[..|e.idle| - 1]), place - {p.id});
    }

    lemma FirstHome(s: seq<Protocol>, h: int)
      requires s != [] && AllHome(s, termsOf(h).host, hosts)
      ensures IsHome(s[0], termsOf(h).host, hosts)
    {
    }

    lemma Home(h: int)
      requires EntriesOk()
      ensures HomedEntry(At(protocolsPerSchema, h), termsOf(h).host, hosts)
    {
    }

    predicate CanSteal(h: int, host: int)
      reads this
    {
      && h in protocolsPerSchema && protocolsPerSchema[h].idle != []
      && protocolsPerSchema[h].idle[|protocolsPerSchema[h].idle| - 1].dsn.hashNoSchema == host
    }

    /** An idle connection of another DSN on the same host; the first that the map happens to give. */
    method StealIdle(dsn: Dsn) returns (r: Option<Protocol>)
      requires EntriesOk()
      modifies this`protocolsPerSchema, this`place
      ensures EntriesOk() && IdleOnly(old(protocolsPerSchema), protocolsPerSchema)
      ensures Used(protocolsPerSchema) == old(Used(protocolsPerSchema))
      ensures r.None? ==>
        protocolsPerSchema == old(protocolsPerSchema) && place == old(place)
          && forall h :: !CanSteal(h, dsn.hashNoSchema)
      ensures r.Some? ==>
        && Idle(protocolsPerSchema) == old(Idle(protocolsPerSchema)) - 1 && r.value.dsn == dsn
        && r.value.id in old(place) && old(place)[r.value.id].IdleAt? && place == old(place) - {r.value.id}
        && OnHost(old(protocolsPerSchema), r.value.id, dsn.hashNoSchema) && IsHome(r.value, dsn.hashNoSchema, hosts)
    {
      hide IdleOnly, Tallied, Homed, EntryOk, Idle, Used, OnHost;
      if h :| h in protocolsPerSchema && CanSteal(h, dsn.hashNoSchema) {
        ghost var es := protocolsPerSchema;
        var p := PopIdle(h);
        assert p == es[h].idle[|es[h].idle| - 1];
        IdleOnlyPut(es, h, protocolsPerSchema[h].idle);
        FoundOnHost(es, h, dsn.hashNoSchema);
        r := Some(p.(dsn := dsn));
      } else {
        IdleOnlySame(protocolsPerSchema);
        r := None;
      }
    }

    lemma FoundOnHost(es: map<int, Protocols>, h: int, host: int)
      requires h in es && es[h].idle != [] && es[h].idle[|es[h].idle| - 1].dsn.hashNoSchema == host
      ensures OnHost(es, es[h].idle[|es[h].idle| - 1].id, host)
    {
    }

    /** An idle connection for `dsn`: its own, or one of the same host. It is not counted yet. */
    method FindIdle(dsn: Dsn) returns (r: Option<Protocol>)
      requires EntriesOk() && dsn.hash in protocolsPerSchema && Agrees(dsn, termsOf)
      modifies this`protocolsPerSchema, this`place
      ensures EntriesOk() && IdleOnly(old(protocolsPerSchema), protocolsPerSchema)
      ensures Used(protocolsPerSchema) == old(Used(protocolsPerSchema))
      ensures r.None? ==>
        && protocolsPerSchema == old(protocolsPerSchema) && place == old(place)
             && protocolsPerSchema[dsn.hash].idle == []
        && (dsn.hasSchema ==> forall h :: !CanSteal(h, dsn.hashNoSchema))
      ensures r.Some? ==>
        && Idle(protocolsPerSchema) == old(Idle(protocolsPerSchema)) - 1 && r.value.dsn.hash == dsn.hash
        && r.value.id in old(place) && old(place)[r.value.id].IdleAt? && place == old(place) - {r.value.id}
        && FitFor(old(protocolsPerSchema), r.value.id, dsn) && IsHome(r.value, dsn.hashNoSchema, hosts)
    {
      hide IdleOnly, Tallied, Homed, EntryOk, Idle, Used, OnHost, IsHome;
      r := None;
      ghost var es := protocolsPerSchema;
      IdleOnlySame(es);
      if protocolsPerSchema[dsn.hash].idle != [] {
        var p := PopIdle(dsn.hash);
        assert p == At(es, dsn.hash).idle[|At(es, dsn.hash).idle| - 1];
        IdleOnlyPut(es, dsn.hash, protocolsPerSchema[dsn.hash].idle);
        r := Some(p);
      } else if dsn.hasSchema {
        r := StealIdle(dsn);
      }
    }

    method StartConnecting(h: int)
      requires Valid() && h in protocolsPerSchema && InUse(protocolsPerSchema[h]) < termsOf(h).limit
      modifies this`protocolsPerSchema, this`place, this`nBusyAll, this`connecting
      ensures Valid() && place == old(place) && connecting == old(connecting) + multiset{h}
        && nBusyAll == old(nBusyAll) + 1
      ensures protocolsPerSchema ==
        var e := old(protocolsPerSchema)[h]; old(protocolsPerSchema)[h := e.(nConnecting := e.nConnecting + 1)]
    {
      hide EntryOk, Idle, Used, Homed, HomedEntry;
      var e := protocolsPerSchema[h];
      ConnectingOk(e, h, termsOf(h).limit, maxConnsWaitQueue, place, ticking);
      Put(h, e.(nConnecting := e.nConnecting + 1), place);
      nBusyAll := nBusyAll + 1;
      connecting := connecting + multiset{h};
    }

    /** An idle connection for `dsn` whose time is not over; those whose time is over are closed on the way. */
    method FindFresh(dsn: Dsn, now: int) returns (r: Option<Protocol>)
      requires Valid() && dsn.hash in protocolsPerSchema && Agrees(dsn, termsOf)
      modifies this`protocolsPerSchema, this`place, this`nIdleAll, this`nBusyAll, this`closing
      ensures Valid() && IdleOnly(old(protocolsPerSchema), protocolsPerSchema) && nIdleAll <= old(nIdleAll)
      ensures place.Keys <= old(place.Keys) && BusyIds(place) == old(BusyIds(place))
      ensures nIdleAll + nBusyAll == old(nIdleAll + nBusyAll) - (if r.Some? then 1 else 0)
      ensures r.None? ==> dsn.hash in protocolsPerSchema && protocolsPerSchema[dsn.hash].idle == []
      ensures r.Some? ==>
        && now < r.value.useTill && r.value.dsn.hash == dsn.hash
        && r.value.id in old(place) && old(place)[r.value.id].IdleAt? && r.value.id !in place
        && FitFor(old(protocolsPerSchema), r.value.id, dsn) && IsHome(r.value, dsn.hashNoSchema, hosts)
    {
      hide Tallied, Homed, EntryOk, Idle, Used, CanSteal, BusyIds, IdleOnly, FitFor, IsHome, Agrees;
      var h := dsn.hash;
      IdleOnlySame(protocolsPerSchema);
      while true
        invariant Valid() && IdleOnly(old(protocolsPerSchema), protocolsPerSchema) && h in protocolsPerSchema
        invariant nIdleAll <= old(nIdleAll) && BusyIds(place) == old(BusyIds(place))
        invariant nIdleAll + nBusyAll == old(nIdleAll + nBusyAll)
        invariant forall id :: id in place ==> id in old(place) && old(place)[id] == place[id]
        decreases nIdleAll
      {
        ghost var place0, es0 := place, protocolsPerSchema;
        r := FindIdle(dsn);
        IdleOnlyTwice(old(protocolsPerSchema), es0, protocolsPerSchema);
        IdleOnlyAt(es0, protocolsPerSchema, h, Connecting);
        if r.None? {
          return;
        }
        nIdleAll := nIdleAll - 1;
        IdleGone(place0, {r.value.id});
        FitEarlierIn(old(protocolsPerSchema), es0, r.value.id, dsn);
        if r.value.useTill > now {
          return;
        }
        CloseConn(h);
      }
    }

    static lemma FitEarlierIn(es: map<int, Protocols>, es': map<int, Protocols>, id: nat, dsn: Dsn)
      requires IdleOnly(es, es')
      ensures FitFor(es', id, dsn) ==> FitFor(es, id, dsn)
    {
      hide IdleOnly, FitFor;
      if FitFor(es', id, dsn) {
        FitEarlier(es, es', id, dsn);
      }
    }

    /**
     A free slot of `dsn` is filled: with an idle connection, with one of the same host, or with a new one.
     A connection that is handed out was idle, and is nobody else's now.
     */
    method TakeOrConnect(dsn: Dsn, now: int, keepAliveTimeout: int, keepAliveMax: int) returns (got: Got)
      requires Valid() && dsn.hash in protocolsPerSchema && Agrees(dsn, termsOf)
      requires InUse(protocolsPerSchema[dsn.hash]) < termsOf(dsn.hash).limit
      modifies this`protocolsPerSchema, this`place, this`nIdleAll, this`nBusyAll, this`closing, this`connecting,
        this`ticking
      ensures Valid() && dsn.hash in protocolsPerSchema && (got.Taken? || got.Connecting?)
      ensures got.Taken? ==>
        && got.p.id in place && place[got.p.id] == BusyAt(dsn.hash) && got.p.dsn.hash == dsn.hash
        && got.p.id in old(place) && old(place)[got.p.id].IdleAt?
        && got.p.useTill <= now + keepAliveTimeout && got.p.useNTimes <= keepAliveMax
        && FitFor(old(protocolsPerSchema), got.p.id, dsn) && IsHome(got.p, dsn.hashNoSchema, hosts)
      ensures IdleOnly(old(protocolsPerSchema)[dsn.hash := Served(old(protocolsPerSchema)[dsn.hash], got)],
        protocolsPerSchema)
      ensures got.Connecting? ==> protocolsPerSchema[dsn.hash].idle == []
      ensures nIdleAll <= old(nIdleAll) && (old(ticking) ==> ticking)
      ensures nIdleAll + nBusyAll - |connecting| == old(nIdleAll + nBusyAll - |connecting|)
      ensures connecting == if got.Connecting? then old(connecting) + multiset{dsn.hash} else old(connecting)
      ensures place.Keys <= old(place.Keys)
      ensures BusyIds(place) == if got.Taken? then old(BusyIds(place)) + {got.p.id} else old(BusyIds(place))
    {
      hide Tallied, Homed, EntryOk, Idle, Used, BusyIds, IdleOnly, FitFor;
      var h := dsn.hash;
      var r := FindFresh(dsn, now);
      IdleOnlyAt(old(protocolsPerSchema), protocolsPerSchema, h, Connecting);
      if r.None? {
        StartConnecting(h);
        got := Connecting;
      } else {
        var p := r.value;
        p := p.(useTill := Min(p.useTill, now + keepAliveTimeout), useNTimes := Min(p.useNTimes, keepAliveMax));
        BusyPlaced(place, p.id, h);
        IdleOnlyAt(old(protocolsPerSchema), protocolsPerSchema, h, Taken(p));
        Occupy(h, p);
        got := Taken(p);
      }
    }

    /** The connection is handed to the caller. */
    method Occupy(h: int, p: Protocol)
      requires EntriesOk() && h in protocolsPerSchema && InUse(protocolsPerSchema[h]) < termsOf(h).limit
      requires p.id !in place && p.dsn.hash == h && IsHome(p, termsOf(h).host, hosts)
      modifies this`protocolsPerSchema, this`place, this`nBusyAll, this`ticking
      ensures EntriesOk() && ticking && nBusyAll == old(nBusyAll) + 1
      ensures protocolsPerSchema ==
        var e := old(protocolsPerSchema)[h]; old(protocolsPerSchema)[h := e.(busy := e.busy + [p])]
      ensures place == old(place)[p.id := BusyAt(h)]
      ensures Idle(protocolsPerSchema) == old(Idle(protocolsPerSchema))
      ensures Used(protocolsPerSchema) == old(Used(protocolsPerSchema)) + 1
    {
      hide Tallied, Homed, EntryOk, Idle, Used, Elsewhere, IsHome, AllHome;
      StartTicking();
      var e := protocolsPerSchema[h];
      Home(h);
      PushHome(e.busy, p, termsOf(h).host, hosts);
      PushBusyOk(e, h, termsOf(h).limit, maxConnsWaitQueue, place, p);
      Put(h, e.(busy := e.busy + [p]), place[p.id := BusyAt(h)]);
      nBusyAll := nBusyAll + 1;
    }

    /**
     A task asks for a connection, or asks again after it slept. `resumed` tells which.
     It gets a slot just when there is one; otherwise it waits, unless its time is over or the queue is full.
     */
    method GetProtocol(dsn: Dsn, resumed: bool, now: int, till: int, reconnectInterval: int, keepAliveTimeout: int,
      keepAliveMax: int) returns (got: Got, woken: seq<Waiter>)
      requires Valid() && Agrees(dsn, termsOf)
      requires resumed ==> dsn.hash in asleep
      modifies this`protocolsPerSchema, this`place, this`nIdleAll, this`nBusyAll, this`closing, this`connecting,
        this`ticking
      modifies this`lastWaiter, this`asleep
      ensures Valid()
      ensures got.Taken? || got.Connecting? <==> InUse(At(old(protocolsPerSchema), dsn.hash)) < termsOf(dsn.hash).limit
      ensures got.Refused? ==> now >= till || |At(protocolsPerSchema, dsn.hash).haveSlotsCallbacks| == maxConnsWaitQueue
      ensures 0 <= nIdleAll <= old(nIdleAll) && (old(ticking) ==> ticking)
      ensures nIdleAll + nBusyAll - |connecting| == old(nIdleAll + nBusyAll - |connecting|)
      ensures got.Asleep? ==> got.w in At(protocolsPerSchema, dsn.hash).haveSlotsCallbacks && dsn.hash in asleep
      ensures got.Taken? ==>
        && got.p.id in place && place[got.p.id] == BusyAt(dsn.hash) && got.p.dsn.hash == dsn.hash
        && got.p.id in old(place) && old(place)[got.p.id].IdleAt?
      ensures got.Taken? ==>
        FitFor(old(protocolsPerSchema), got.p.id, dsn) && IsHome(got.p, dsn.hashNoSchema, hosts)
      ensures var h, was := dsn.hash, At(old(protocolsPerSchema), dsn.hash);
        if got.Taken? || got.Connecting? then
          IdleOnly(old(protocolsPerSchema)[h := Served(was, got)], protocolsPerSchema)
        else
          protocolsPerSchema ==
            old(protocolsPerSchema)[h := was.(haveSlotsCallbacks := At(protocolsPerSchema, h).haveSlotsCallbacks)]
      ensures connecting == if got.Connecting? then old(connecting) + multiset{dsn.hash} else old(connecting)
      ensures var others := if resumed then old(asleep) - multiset{dsn.hash} else old(asleep);
        asleep == if got.Asleep? then others + multiset{dsn.hash} else others
      ensures place.Keys <= old(place.Keys)
      ensures BusyIds(place) == if got.Taken? then old(BusyIds(place)) + {got.p.id} else old(BusyIds(place))
    {
      hide IdleOnly, Tallied, Homed, BusyIds, EntryOk, Idle, Used, Served, FitFor, IsHome, Agrees;
      var h := dsn.hash;
      assert Limit(dsn.maxConns) == termsOf(h).limit by { AgreedLimit(dsn); }
      if resumed {
        asleep := asleep - multiset{h};
      }
      woken := [];
      ghost var es, was := protocolsPerSchema, At(protocolsPerSchema, h);
      NewEntry(h);
      if InUse(protocolsPerSchema[h]) >= termsOf(h).limit {
        if now >= till {
          return Refused, [];
        }
        var r;
        r, woken := WaitHaveSlots(h, now, till, reconnectInterval);
        PutTwice(es, h, was, was.(haveSlotsCallbacks := protocolsPerSchema[h].haveSlotsCallbacks));
        got := if r.Some? then Asleep(r.value) else Refused;
      } else {
        ghost var es1 := protocolsPerSchema;
        got := TakeOrConnect(dsn, now, keepAliveTimeout, keepAliveMax);
        PutTwice(es, h, was, Served(was, got));
        if got.Taken? {
          FitAnew(es, es1, h, got.p.id, dsn);
        }
      }
    }

    lemma AgreedLimit(dsn: Dsn)
      requires Agrees(dsn, termsOf)
      ensures Limit(dsn.maxConns) == termsOf(dsn.hash).limit
    {
    }

    static lemma FitAnew(es: map<int, Protocols>, es': map<int, Protocols>, h: int, id: nat, dsn: Dsn)
      requires es' == es[h := At(es, h)] && FitFor(es', id, dsn)
      ensures FitFor(es, id, dsn)
    {
      if InIdle(es', id, dsn.hash) {
        assert At(es', dsn.hash) == At(es, dsn.hash);
      } else {
        var k, i :| k in es' && 0 <= i < |es'[k].idle| && es'[k].idle[i].id == id
          && es'[k].idle[i].dsn.hashNoSchema == dsn.hashNoSchema;
        assert es[k].idle == es'[k].idle;
      }
    }

    /** What is idle, or unknown, is in nobody's hands. */
    lemma IdleUnleased()
      requires EntriesOk()
      ensures var es, place := protocolsPerSchema, place;
        forall l: Lease :: (l.id in place ==> place[l.id].IdleAt?) ==> Uses(es, l) == 0
    {
      forall l: Lease | l.id in place ==> place[l.id].IdleAt?
        ensures Uses(protocolsPerSchema, l) == 0
      {
        var h := l.dsn.hash;
        assert h in protocolsPerSchema ==>
          EntryOk(protocolsPerSchema[h], h, termsOf(h).limit, maxConnsWaitQueue, place, ticking);
      }
    }

    lemma FoundBusy(p: Protocol)
      ensures IsBusy(p) <==> exists q :: q in At(protocolsPerSchema, p.dsn.hash).busy && q.id == p.id
      ensures TwinBusy(p) <==> exists q :: q in At(protocolsPerSchema, p.dsn.hash).busy && q.dsn == p.dsn
    {
      var busy := At(protocolsPerSchema, p.dsn.hash).busy;
      FindIn(busy, (q: Protocol) => q.id == p.id);
      FindIn(busy, (q: Protocol) => q.dsn == p.dsn);
    }

    lemma BusyDistinct(h: int)
      requires EntriesOk()
      ensures DistinctIds(At(protocolsPerSchema, h).busy)
      ensures forall p :: p in At(protocolsPerSchema, h).busy ==> p.dsn.hash == h
    {
      assert h in protocolsPerSchema ==>
        EntryOk(protocolsPerSchema[h], h, termsOf(h).limit, maxConnsWaitQueue, place, ticking);
    }

    method NewEntry(h: int)
      requires Valid()
      modifies this`protocolsPerSchema, this`place
      ensures Valid() && protocolsPerSchema == old(protocolsPerSchema)[h := At(old(protocolsPerSchema), h)]
        && place == old(place)
    {
      hide Tallied, Homed, EntryOk, Idle, Used;
      if h !in protocolsPerSchema {
        NothingOk(h, termsOf(h).limit, maxConnsWaitQueue, place, ticking);
        Put(h, NOTHING, place);
      }
    }

    /** A task that opened a connection for `h` is done with it. */
    method StopConnecting(h: int)
      requires Valid() && h in connecting
      modifies this`protocolsPerSchema, this`place, this`connecting
      ensures EntriesOk() && Counted(1) && place == old(place) && connecting == old(connecting) - multiset{h}
      ensures h in old(protocolsPerSchema) && old(protocolsPerSchema)[h].nConnecting > 0
      ensures protocolsPerSchema ==
        var e := old(protocolsPerSchema)[h]; old(protocolsPerSchema)[h := e.(nConnecting := e.nConnecting - 1)]
      ensures InUse(protocolsPerSchema[h]) < termsOf(h).limit
    {
      hide EntryOk, Idle, Used, Homed, HomedEntry;
      var e := protocolsPerSchema[h];
      ConnectingOk(e, h, termsOf(h).limit, maxConnsWaitQueue, place, ticking);
      Put(h, e.(nConnecting := e.nConnecting - 1), place);
      connecting := connecting - multiset{h};
    }

    /** The new connection `p` is there. */
    method Connected(dsn: Dsn, p: Protocol, now: int, keepAliveTimeout: int, keepAliveMax: int)
      requires Valid() && dsn.hash in connecting && p.dsn == dsn && p.id !in place && p.id !in hosts
      requires Agrees(dsn, termsOf)
      modifies this`protocolsPerSchema, this`place, this`nBusyAll, this`ticking, this`connecting, this`hosts
      ensures hosts == old(hosts)[p.id := dsn.hashNoSchema]
      ensures Valid() && ticking && nBusyAll == old(nBusyAll) && place == old(place)[p.id := BusyAt(dsn.hash)]
      ensures connecting == old(connecting) - multiset{dsn.hash}
      ensures dsn.hash in old(protocolsPerSchema) && old(protocolsPerSchema)[dsn.hash].nConnecting > 0
      ensures protocolsPerSchema ==
        var e := old(protocolsPerSchema)[dsn.hash];
        var taken := p.(useTill := Min(p.useTill, now + keepAliveTimeout), useNTimes := Min(p.useNTimes, keepAliveMax));
        old(protocolsPerSchema)[dsn.hash := e.(nConnecting := e.nConnecting - 1, busy := e.busy + [taken])]
    {
      hide Tallied, Homed, EntryOk, Idle, Used;
      var h := dsn.hash;
      StopConnecting(h);
      NoteHost(p.id, dsn.hashNoSchema);
      nBusyAll := nBusyAll - 1;
      Occupy(h, p.(useTill := Min(p.useTill, now + keepAliveTimeout), useNTimes := Min(p.useNTimes, keepAliveMax)));
    }

    /** A new connection to `host` has this number. */
    ghost method NoteHost(id: nat, host: int)
      requires EntriesOk() && id !in hosts
      modifies this`hosts
      ensures EntriesOk() && hosts == old(hosts)[id := host]
    {
      hide Tallied, Homed, EntryOk;
      HomedGrows(protocolsPerSchema, hosts, termsOf, id, host);
      hosts := hosts[id := host];
    }

    /** It could not be opened. */
    method NotConnected(h: int) returns (woken: seq<Waiter>)
      requires Valid() && h in connecting
      modifies this`protocolsPerSchema, this`place, this`nBusyAll, this`ticking, this`ended, this`connecting
      ensures Valid() && place == old(place) && nBusyAll == old(nBusyAll) - 1
      ensures connecting == old(connecting) - multiset{h}
      ensures h in old(protocolsPerSchema) && old(protocolsPerSchema)[h].nConnecting > 0
      ensures protocolsPerSchema ==
        var e := old(protocolsPerSchema)[h].(nConnecting := old(protocolsPerSchema)[h].nConnecting - 1);
        old(protocolsPerSchema)[h := if woken == [] then e else e.(haveSlotsCallbacks := [])]
      ensures woken != [] ==> h in protocolsPerSchema && InUse(protocolsPerSchema[h]) < termsOf(h).limit
      ensures ticking == (old(ticking) && !(At(old(protocolsPerSchema), h).haveSlotsCallbacks == [] && Empty()))
      ensures SameBusy(old(protocolsPerSchema), protocolsPerSchema)
    {
      hide Tallied, Homed, EntryOk, Idle, Used;
      StopConnecting(h);
      woken := DecNBusyAll(h);
    }

    /**
     A connection comes back, with another one for the same server in its place if it can be used again.
     The connection itself is looked for first, and then any with the same Dsn object: for one that
     has come back already, this gives up a connection that somebody else is using.
     */
    method ReturnProtocol(p: Protocol, reuse: Option<Protocol>) returns (released: Option<Protocol>, woken: seq<Waiter>)
      requires Valid() && Agrees(p.dsn, termsOf)
      requires reuse.Some? ==> reuse.value.dsn == p.dsn && reuse.value.id !in place && reuse.value.id !in hosts
      modifies this`protocolsPerSchema, this`place, this`nIdleAll, this`nBusyAll, this`ticking, this`ended, this`hosts
      ensures Valid()
      ensures hosts == if released.Some? && reuse.Some? then old(hosts)[reuse.value.id := p.dsn.hashNoSchema]
        else old(hosts)
      ensures old(IsBusy(p)) ==> released.Some? && released.value.id == p.id
      ensures released.Some? ==>
        && nBusyAll == old(nBusyAll) - 1 && nIdleAll == old(nIdleAll) + (if reuse.Some? then 1 else 0)
        && released.value.id in old(place) && old(place)[released.value.id] == BusyAt(p.dsn.hash)
        && (reuse.None? ==> place == old(place) - {released.value.id})
        && (reuse.Some? ==> place == (old(place) - {released.value.id})[reuse.value.id := IdleAt(p.dsn.hash)])
      ensures released.Some? ==>
        && p.dsn.hash in old(protocolsPerSchema) && protocolsPerSchema.Keys == old(protocolsPerSchema).Keys
        && var was, now := old(protocolsPerSchema)[p.dsn.hash], protocolsPerSchema[p.dsn.hash];
        && released.value in was.busy && multiset(now.busy) == multiset(was.busy) - multiset{released.value}
        && now.idle == was.idle + (if reuse.Some? then [reuse.value] else [])
        && now.nConnecting == was.nConnecting
        && forall k :: k in protocolsPerSchema && k != p.dsn.hash ==>
             protocolsPerSchema[k] == old(protocolsPerSchema)[k]
      ensures released.Some? && released.value.id != p.id ==> released.value.dsn == p.dsn
      ensures released.Some? && released.value.id != p.id <==> !old(IsBusy(p)) && old(TwinBusy(p))
      ensures released.None? ==>
        && nBusyAll == old(nBusyAll) && nIdleAll == old(nIdleAll) && place == old(place)
        && protocolsPerSchema == old(protocolsPerSchema)
      ensures woken != [] ==>
        p.dsn.hash in protocolsPerSchema && InUse(protocolsPerSchema[p.dsn.hash]) < termsOf(p.dsn.hash).limit
    {
      hide Tallied, Homed, EntryOk, Idle, Used, Elsewhere, Find;
      var h := p.dsn.hash;
      released, woken := None, [];
      if h in protocolsPerSchema {
        var e := protocolsPerSchema[h];
        var at := PlaceOf(p);
        if at.Some? {
          released := Some(e.busy[at.value]);
          Release(h, at.value);
          if reuse.Some? {
            NoteHost(reuse.value.id, p.dsn.hashNoSchema);
            Park(h, reuse.value);
          }
          woken := DecNBusyAll(h);
        }
      }
    }

    /**
     The periodic task could not open the connection that was going to take care of `dsn`: `dsn` waits again. But the
     interval that would come back to it was stopped just before, if nothing else was left in the pool.
     */
    method RetryFails(dsn: Dsn) returns (woken: seq<Waiter>)
      requires Valid() && dsn.hash in connecting
      modifies this`protocolsPerSchema, this`place, this`nBusyAll, this`ticking, this`ended, this`connecting
      modifies this`takeCareOfDisconneced
      ensures Valid() && place == old(place) && connecting == old(connecting) - multiset{dsn.hash}
      ensures takeCareOfDisconneced == old(takeCareOfDisconneced) + [dsn]
      ensures old(ticking) ==> (!ticking <==>
        && old(takeCareOfDisconneced) == [] && old(nIdleAll) == 0 && old(nBusyAll) == 1
        && At(old(protocolsPerSchema), dsn.hash).haveSlotsCallbacks == [])
      ensures SameBusy(old(protocolsPerSchema), protocolsPerSchema)
    {
      hide Tallied, Homed, EntryOk, Idle, Used;
      woken := NotConnected(dsn.hash);
      takeCareOfDisconneced := takeCareOfDisconneced + [dsn];
    }

    /**
     A connection was cut off by force: somebody has to see that its query is killed, and its transaction rolled back.
     */
    method Remember(dsn: Dsn)
      requires Valid()
      modifies this`takeCareOfDisconneced, this`ticking
      ensures Valid() && ticking && takeCareOfDisconneced == old(takeCareOfDisconneced) + [dsn]
    {
      hide Tallied, Homed, EntryOk, Idle, Used;
      takeCareOfDisconneced := takeCareOfDisconneced + [dsn];
      StartTicking();
    }

    /** A connection that nobody uses any more waits to be used again. */
    method Park(h: int, p: Protocol)
      requires EntriesOk() && ticking && h in protocolsPerSchema && p.id !in place && p.dsn.hash == h
      requires IsHome(p, termsOf(h).host, hosts)
      modifies this`protocolsPerSchema, this`place, this`nIdleAll
      ensures EntriesOk() && nIdleAll == old(nIdleAll) + 1 && place == old(place)[p.id := IdleAt(h)]
      ensures protocolsPerSchema ==
        var e := old(protocolsPerSchema)[h]; old(protocolsPerSchema)[h := e.(idle := e.idle + [p])]
      ensures Idle(protocolsPerSchema) == old(Idle(protocolsPerSchema)) + 1
      ensures Used(protocolsPerSchema) == old(Used(protocolsPerSchema))
    {
      hide Tallied, Homed, EntryOk, Idle, Used, Elsewhere;
      var e := protocolsPerSchema[h];
      Home(h);
      PushHome(e.idle, p, termsOf(h).host, hosts);
      PushIdleOk(e, h, termsOf(h).limit, maxConnsWaitQueue, place, p);
      Put(h, e.(idle := e.idle + [p]), place[p.id := IdleAt(h)]);
      nIdleAll := nIdleAll + 1;
    }

    /** Where the connection is, or the first one of the same Dsn object. */
    method PlaceOf(p: Protocol) returns (at: Option<nat>)
      requires p.dsn.hash in protocolsPerSchema
      ensures at.Some? <==> IsBusy(p) || TwinBusy(p)
      ensures at.Some? ==>
        var busy := protocolsPerSchema[p.dsn.hash].busy;
        && at.value < |busy| && (busy[at.value].id == p.id <==> IsBusy(p))
        && (busy[at.value].id != p.id ==> busy[at.value].dsn == p.dsn)
    {
      var busy := protocolsPerSchema[p.dsn.hash].busy;
      at := Find(busy, (q: Protocol) => q.id == p.id);
      if at.None? {
        at := Find(busy, (q: Protocol) => q.dsn == p.dsn);
      }
    }

    predicate IsBusy(p: Protocol)
      reads this
    {
      p.dsn.hash in protocolsPerSchema && Find(protocolsPerSchema[p.dsn.hash].busy, (q: Protocol) => q.id == p.id).Some?
    }

    /** A connection that somebody uses was opened for the same Dsn object. */
    predicate TwinBusy(p: Protocol)
      reads this
    {
      p.dsn.hash in protocolsPerSchema
        && Find(protocolsPerSchema[p.dsn.hash].busy, (q: Protocol) => q.dsn == p.dsn).Some?
    }

    method Release(h: int, i: nat)
      requires EntriesOk() && h in protocolsPerSchema && i < |protocolsPerSchema[h].busy|
      modifies this`protocolsPerSchema, this`place
      ensures EntriesOk() && h in protocolsPerSchema && ticking
      ensures protocolsPerSchema ==
        var e := old(protocolsPerSchema)[h]; old(protocolsPerSchema)[h := e.(busy := Without(e.busy, i))]
      ensures var id := old(protocolsPerSchema)[h].busy[i].id;
        id in old(place) && old(place)[id] == BusyAt(h) && place == old(place) - {id}
      ensures Idle(protocolsPerSchema) == old(Idle(protocolsPerSchema))
      ensures Used(protocolsPerSchema) == old(Used(protocolsPerSchema)) - 1
      ensures multiset(protocolsPerSchema[h].busy) ==
        multiset(old(protocolsPerSchema)[h].busy) - multiset{old(protocolsPerSchema)[h].busy[i]}
    {
      hide Tallied, Homed, EntryOk, Idle, Used, Elsewhere;
      var e := protocolsPerSchema[h];
      WithoutOne(e.busy, i);
      Home(h);
      SomeHome(e.busy, Without(e.busy, i), termsOf(h).host, hosts);
      ReleaseOk(e, h, termsOf(h).limit, maxConnsWaitQueue, place, ticking, i);
      Put(h, e.(busy := Without(e.busy, i)), place - {e.busy[i].id});
    }

    /** The idle connections of `h` that are kept alive for too long are closed; with `all`, every one. */
    method CloseIdle(h: int, now: int, all: bool)
      requires Valid() && h in protocolsPerSchema
      modifies this`protocolsPerSchema, this`place, this`nIdleAll, this`nBusyAll, this`closing
      ensures Valid() && protocolsPerSchema.Keys == old(protocolsPerSchema).Keys
      ensures protocolsPerSchema ==
        old(protocolsPerSchema)[h := old(protocolsPerSchema)[h].(idle := protocolsPerSchema[h].idle)]
      ensures forall p :: p in protocolsPerSchema[h].idle ==> !all && now < p.useTill
      ensures forall p :: p in old(protocolsPerSchema)[h].idle && !all && now < p.useTill ==>
        p in protocolsPerSchema[h].idle
      ensures nIdleAll + nBusyAll == old(nIdleAll + nBusyAll)
      ensures place.Keys <= old(place.Keys) && BusyIds(place) == old(BusyIds(place))
    {
      hide BusyIds, EntryOk, Idle, Used, Elsewhere;
      var e := protocolsPerSchema[h];
      var kept, dropped := SwapRemove.Filter(e.idle, (p: Protocol) => all || p.useTill <= now);
      KeptOk(e, kept, dropped, h, termsOf(h).limit, maxConnsWaitQueue, place, ticking);
      IdleGone(place, Ids(dropped));
      Home(h);
      KeptHome(e.idle, kept, dropped, h);
      forall p | p in e.idle
        ensures p in kept || p in dropped
      {
        InEither(e.idle, kept, dropped, p);
      }
      Put(h, e.(idle := kept), place - Ids(dropped));
      for i := 0 to |dropped|
        modifies this`nIdleAll, this`nBusyAll, this`closing
        invariant EntriesOk()
        invariant nIdleAll == old(nIdleAll) - i && nBusyAll == old(nBusyAll) + i && |closing| == old(|closing|) + i
      {
        nIdleAll := nIdleAll - 1;
        CloseConn(h);
      }
    }

    lemma KeptHome(s: seq<Protocol>, kept: seq<Protocol>, dropped: seq<Protocol>, h: int)
      requires AllHome(s, termsOf(h).host, hosts) && multiset(kept) + multiset(dropped) == multiset(s)
      ensures AllHome(kept, termsOf(h).host, hosts)
    {
      forall p | p in kept
        ensures p in s
      {
        assert p in multiset(kept);
        assert p in multiset(s);
      }
      SomeHome(s, kept, termsOf(h).host, hosts);
    }

    /** One round of the cleaning: an entry with nothing in it is forgotten, if nobody sleeps on it. */
    method CleanEntry(h: int, now: int, all: bool, healthIsEmpty: bool)
      requires Valid() && h in protocolsPerSchema && (healthIsEmpty ==> h !in asleep)
      modifies this`protocolsPerSchema, this`place, this`nIdleAll, this`nBusyAll, this`closing
      ensures Valid() && nIdleAll + nBusyAll == old(nIdleAll + nBusyAll)
      ensures protocolsPerSchema.Keys == old(protocolsPerSchema).Keys ||
        (protocolsPerSchema.Keys == old(protocolsPerSchema).Keys - {h} && healthIsEmpty)
      ensures h in protocolsPerSchema ==>
        forall p :: p in protocolsPerSchema[h].idle ==> !all && now < p.useTill
      ensures forall k :: k in protocolsPerSchema && k != h ==> protocolsPerSchema[k] == old(protocolsPerSchema)[k]
      ensures place.Keys <= old(place.Keys) && BusyIds(place) == old(BusyIds(place))
      ensures SameBusy(old(protocolsPerSchema), protocolsPerSchema)
    {
      hide BusyIds, Tallied, Homed, EntryOk, Idle, Used, Elsewhere;
      CloseIdle(h, now, all);
      var _ := CloseHaveSlotsTimedOut(h, now);
      if InUse(protocolsPerSchema[h]) + |protocolsPerSchema[h].idle| == 0 && healthIsEmpty {
        Forget(h);
      }
    }

    /** The entry goes; the connections of it that are still being closed have nobody to wake. */
    method Forget(h: int)
      requires Valid() && h in protocolsPerSchema && h !in asleep
      requires InUse(protocolsPerSchema[h]) == 0 && protocolsPerSchema[h].idle == []
      modifies this`protocolsPerSchema, this`closing
      ensures Valid() && protocolsPerSchema == old(protocolsPerSchema) - {h}
    {
      hide BusyIds, EntryOk, Idle, Used, Elsewhere;
      Uncount(protocolsPerSchema, h);
      HomedWithout(protocolsPerSchema, hosts, termsOf, h);
      closing := closing[Some(h) := 0][None := closing[None] + closing[Some(h)]];
      protocolsPerSchema := protocolsPerSchema - {h};
    }

    /** The cleaning of all entries. */
    method CleanAll(now: int, closeAllIdle: bool, healthIsEmpty: int -> bool)
      requires Valid() && forall h :: h in asleep ==> !healthIsEmpty(h)
      modifies this`protocolsPerSchema, this`place, this`nIdleAll, this`nBusyAll, this`closing
      ensures Valid() && protocolsPerSchema.Keys <= old(protocolsPerSchema).Keys
      ensures forall h :: h in protocolsPerSchema ==>
        forall p :: p in protocolsPerSchema[h].idle ==> !closeAllIdle && now < p.useTill
      ensures (closeAllIdle ==> nIdleAll == 0) && nIdleAll + nBusyAll == old(nIdleAll + nBusyAll)
      ensures place.Keys <= old(place.Keys) && BusyIds(place) == old(BusyIds(place))
      ensures SameBusy(old(protocolsPerSchema), protocolsPerSchema)
    {
      hide BusyIds, EntryOk, Idle, Used;
      var todo := protocolsPerSchema.Keys;
      while exists h :: h in todo
        invariant Valid() && todo <= protocolsPerSchema.Keys <= old(protocolsPerSchema).Keys
        invariant nIdleAll + nBusyAll == old(nIdleAll + nBusyAll)
        invariant SameBusy(old(protocolsPerSchema), protocolsPerSchema)
        invariant place.Keys <= old(place.Keys) && BusyIds(place) == old(BusyIds(place))
        invariant forall h :: h in protocolsPerSchema && h !in todo ==>
          forall p :: p in protocolsPerSchema[h].idle ==> !closeAllIdle && now < p.useTill
        decreases todo
      {
        var h :| h in todo;
        todo := todo - {h};
        var all := closeAllIdle || exists i :: 0 <= i < |takeCareOfDisconneced| && takeCareOfDisconneced[i].hash == h;
        CleanEntry(h, now, all, healthIsEmpty(h));
      }
      if closeAllIdle {
        forall h | h in protocolsPerSchema
          ensures protocolsPerSchema[h].idle == []
        {
          if |protocolsPerSchema[h].idle| > 0 {
            FirstIsIn(protocolsPerSchema[h].idle);
          }
        }
        NoneIdle(protocolsPerSchema);
      }
    }

    /**
     The periodic task. For each connection that was cut off by force a new one is asked for, that
     will take care of it; a DSN that is full has to wait for the next time. In the end the interval
     stops if there is nothing left to look after. `taken` are the connections that it got from the idle ones.
     */
    method CommonTask(now: int, closeAllIdle: bool, healthIsEmpty: int -> bool, till: int, reconnectInterval: int,
      keepAliveTimeout: int, keepAliveMax: int) returns (taken: seq<nat>, ghost held: multiset<Lease>)
      requires Valid() && forall h :: h in asleep ==> !healthIsEmpty(h)
      requires forall i :: 0 <= i < |takeCareOfDisconneced| ==>
        Agrees(takeCareOfDisconneced[i], termsOf)
      modifies this`protocolsPerSchema, this`place, this`nIdleAll, this`nBusyAll, this`closing, this`connecting,
        this`ticking
      modifies this`lastWaiter, this`asleep, this`takeCareOfDisconneced
      ensures Valid() && (closeAllIdle ==> nIdleAll == 0)
      ensures !ticking && old(ticking) ==> nBusyAll == 0 && nIdleAll == 0 && takeCareOfDisconneced == []
      ensures place.Keys <= old(place.Keys) && Joined(old(BusyIds(place)), taken, BusyIds(place))
      ensures forall d :: d in takeCareOfDisconneced ==>
        d in old(takeCareOfDisconneced) && InUse(At(protocolsPerSchema, d.hash)) >= termsOf(d.hash).limit
      ensures nIdleAll + nBusyAll - |connecting| == old(nIdleAll + nBusyAll - |connecting|)
      ensures |connecting| + |taken| + |takeCareOfDisconneced| == |old(connecting)| + |old(takeCareOfDisconneced)|
      ensures forall h :: h in connecting ==>
        h in old(connecting) || exists d :: d in old(takeCareOfDisconneced) && d.hash == h
      ensures Handed(old(protocolsPerSchema), held, protocolsPerSchema) && |held| == |taken| && AtHosts(held, hosts)
    {
      hide BusyIds, Tallied, Homed, EntryOk, Idle, Used, Joined, InUse, At, Handed, SameBusy;
      CleanAll(now, closeAllIdle, healthIsEmpty);
      var infos := takeCareOfDisconneced;
      takeCareOfDisconneced := [];
      ghost var es := protocolsPerSchema;
      NobodyServed(old(protocolsPerSchema), es);
      taken, held := TakeCareOfAll(infos, now, till, reconnectInterval, keepAliveTimeout, keepAliveMax);
      HandedTwice(old(protocolsPerSchema), multiset{}, es, held, protocolsPerSchema);
      assert multiset{} + held == held;
      if nBusyAll + nIdleAll + |takeCareOfDisconneced| == 0 {
        IdleNotNegative();
        StopTicking();
      }
    }

    method TakeCareOfAll(infos: seq<Dsn>, now: int, till: int, reconnectInterval: int, keepAliveTimeout: int,
      keepAliveMax: int) returns (taken: seq<nat>, ghost held: multiset<Lease>)
      requires Valid() && takeCareOfDisconneced == []
      requires forall d :: d in infos ==> Agrees(d, termsOf)
      modifies this`protocolsPerSchema, this`place, this`nIdleAll, this`nBusyAll, this`closing, this`connecting,
        this`ticking
      modifies this`lastWaiter, this`asleep, this`takeCareOfDisconneced
      ensures Valid() && nIdleAll <= old(nIdleAll) && (old(ticking) ==> ticking)
      ensures place.Keys <= old(place.Keys) && Joined(old(BusyIds(place)), taken, BusyIds(place))
      ensures forall d :: d in takeCareOfDisconneced ==>
        d in infos && InUse(At(protocolsPerSchema, d.hash)) >= termsOf(d.hash).limit
      ensures forall h :: h in connecting ==> h in old(connecting) || exists d :: d in infos && d.hash == h
      ensures nIdleAll + nBusyAll - |connecting| == old(nIdleAll + nBusyAll - |connecting|)
      ensures |connecting| + |taken| + |takeCareOfDisconneced| == |old(connecting)| + |infos|
      ensures Handed(old(protocolsPerSchema), held, protocolsPerSchema) && |held| == |taken| && AtHosts(held, hosts)
    {
      hide BusyIds, Tallied, Homed, EntryOk, Idle, Used, Joined, InUse, At, Handed, SameBusy;
      taken, held := [], multiset{};
      NobodyJoined(BusyIds(place));
      SameIsSame(protocolsPerSchema);
      for k := 0 to |infos|
        invariant Valid() && nIdleAll <= old(nIdleAll) && (old(ticking) ==> ticking)
        invariant place.Keys <= old(place.Keys) && Joined(old(BusyIds(place)), taken, BusyIds(place))
        invariant forall d :: d in takeCareOfDisconneced ==>
          d in infos && InUse(At(protocolsPerSchema, d.hash)) >= termsOf(d.hash).limit
        invariant forall h :: h in connecting ==> h in old(connecting) || exists d :: d in infos && d.hash == h
        invariant Handed(old(protocolsPerSchema), held, protocolsPerSchema) && |held| == |taken| && AtHosts(held, hosts)
        invariant nIdleAll + nBusyAll - |connecting| == old(nIdleAll + nBusyAll - |connecting|)
        invariant |connecting| + |taken| + |takeCareOfDisconneced| == |old(connecting)| + k
      {
        ghost var es := protocolsPerSchema;
        var full, ids, more :=
          TakeCare(infos[k], now, till, reconnectInterval, keepAliveTimeout, keepAliveMax, old(BusyIds(place)), taken);
        takeCareOfDisconneced := takeCareOfDisconneced + (if full then [infos[k]] else []);
        HandedTwice(old(protocolsPerSchema), held, es, more, protocolsPerSchema);
        taken, held := taken + ids, held + more;
      }
    }

    method TakeCare(dsn: Dsn, now: int, till: int, reconnectInterval: int, keepAliveTimeout: int, keepAliveMax: int,
      ghost busy: set<nat>, ghost taken: seq<nat>) returns (full: bool, ids: seq<nat>, ghost held: multiset<Lease>)
      requires Valid() && Agrees(dsn, termsOf) && Joined(busy, taken, BusyIds(place))
      modifies this`protocolsPerSchema, this`place, this`nIdleAll, this`nBusyAll, this`closing, this`connecting,
        this`ticking
      modifies this`lastWaiter, this`asleep
      ensures Valid() && nIdleAll <= old(nIdleAll) && (old(ticking) ==> ticking)
      ensures nIdleAll + nBusyAll - |connecting| == old(nIdleAll + nBusyAll - |connecting|)
      ensures full == (InUse(At(old(protocolsPerSchema), dsn.hash)) >= termsOf(dsn.hash).limit
        && dsn.hash in old(protocolsPerSchema))
      ensures forall h :: h in connecting ==> h in old(connecting) || h == dsn.hash
      ensures |connecting| + |ids| + (if full then 1 else 0) == |old(connecting)| + 1
      ensures forall h :: InUse(At(old(protocolsPerSchema), h)) <= InUse(At(protocolsPerSchema, h))
      ensures place.Keys <= old(place.Keys) && Joined(busy, taken + ids, BusyIds(place))
      ensures Handed(old(protocolsPerSchema), held, protocolsPerSchema) && |held| == |ids| && AtHosts(held, hosts)
    {
      hide Tallied, Homed, EntryOk, Idle, Used, Joined, IdleOnly, Handed, Uses, Served;
      SameIsSame(protocolsPerSchema);
      IdleUnleased();
      held := multiset{};
      var h := dsn.hash;
      full, ids := h in protocolsPerSchema && InUse(protocolsPerSchema[h]) >= termsOf(h).limit, [];
      if full {
        assert taken + [] == taken;
      } else {
        var got, _ := GetProtocol(dsn, false, now, till, reconnectInterval, keepAliveTimeout, keepAliveMax);
        MoreInUse(old(protocolsPerSchema), protocolsPerSchema, h, got);
        LeaseServed(old(protocolsPerSchema), protocolsPerSchema, h, got);
        held := HeldOf(got);
        if got.Taken? {
          ids := [got.p.id];
          OneJoined(busy, taken, old(BusyIds(place)), got.p.id);
        } else {
          assert taken + [] == taken;
        }
      }
    }
  }

  // ---- any interleaving of tasks

  /**
   A stretch of some task. A connection opens or fails only for a task that opens one, a task goes on
   only if it sleeps, and a close ends only if it was begun.
   */
  datatype Event =
    | Asks(dsn: Dsn, till: int)
    | Resumes(dsn: Dsn, till: int)
    | Connects(dsn: Dsn)
    | Fails(hash: int)
    | FailsRetry(dsn: Dsn)
    | Closes(of: Option<int>)
    | Returns(p: Protocol, reusable: bool)
    | Remembers(dsn: Dsn)
    | Cleans(closeAllIdle: bool, healthIsEmpty: int -> bool, till: int)

  datatype Times = Times(reconnectInterval: int, keepAliveTimeout: int, keepAliveMax: int, useTill: int, useNTimes: int)

  /** What is held after an event, when `given` was handed out in it. A Dsn that was edited is not known to the pool. */
  ghost function HoldersNext(termsOf: int -> Terms, e: Event, given: multiset<Lease>, holders: multiset<Lease>):
    multiset<Lease>
  {
    match e
    case Returns(p, _) =>
      if Agrees(p.dsn, termsOf) then holders - multiset{LeaseOf(p)} else holders
    case _ => holders + given
  }

  ghost function HoldersAfter(termsOf: int -> Terms, events: seq<(int, Event)>, given: seq<multiset<Lease>>):
    multiset<Lease>
    requires |given| == |events|
  {
    if events == [] then multiset{}
    else
      var last := |events| - 1;
      HoldersNext(termsOf, events[last].1, given[last], HoldersAfter(termsOf, events[..last], given[..last]))
  }

  /** The Dsn that the event asks a connection for, or opens one for. */
  function Wanted(e: Event): Option<Dsn> {
    match e
    case Asks(dsn, _) => Some(dsn)
    case Resumes(dsn, _) => Some(dsn)
    case Connects(dsn) => Some(dsn)
    case _ => None
  }

  /** What is handed out leads to the host of its Dsn, and that is the one that was asked for. */
  ghost predicate RightHost(e: Event, given: multiset<Lease>, hosts: map<nat, int>) {
    forall l :: l in given ==>
      && l.id in hosts && hosts[l.id] == l.dsn.hashNoSchema
      && (Wanted(e).Some? ==>
            l.dsn.hash == Wanted(e).value.hash && l.dsn.hashNoSchema == Wanted(e).value.hashNoSchema)
  }

  ghost predicate HostsGrow(hosts: map<nat, int>, hosts': map<nat, int>) {
    forall id :: id in hosts ==> id in hosts' && hosts'[id] == hosts[id]
  }

  lemma StillRightHost(e: Event, given: multiset<Lease>, hosts: map<nat, int>, hosts': map<nat, int>)
    requires RightHost(e, given, hosts) && HostsGrow(hosts, hosts')
    ensures RightHost(e, given, hosts')
  {
  }

  lemma NothingHome(e: Event, hosts: map<nat, int>)
    ensures RightHost(e, multiset{}, hosts)
  {
  }

  /** The event takes a connection away from somebody who holds it. */
  ghost predicate Harms(termsOf: int -> Terms, e: Event, holders: multiset<Lease>) {
    e.Returns? && Agrees(e.p.dsn, termsOf) && TakesAnothers(e.p, holders)
  }

  ghost predicate HarmAt(termsOf: int -> Terms, events: seq<(int, Event)>, given: seq<multiset<Lease>>, k: nat)
    requires |given| == |events| && k < |events|
  {
    Harms(termsOf, events[k].1, HoldersAfter(termsOf, events[..k], given[..k]))
  }

  predicate HandsOut(e: Event) {
    e.Asks? || e.Resumes? || e.Connects? || e.Cleans?
  }

  /**
   Any tasks, interleaved in any way, at any times. Each count stays exact and within its limit, and a connection is
   in one list at most. `given` tells what each event handed out; who got a connection and has not given it back holds
   it. Each connection in use has one holder and nobody else holds any, up to the first event that gives back what is
   not held while another connection of that Dsn is: then, and only then, somebody loses a connection. Whoever asked
   for a connection got one that was opened to the host that he asked for.
   */
  method Run(termsOf: int -> Terms, maxConnsWaitQueue: nat, times: Times, events: seq<(int, Event)>)
    returns (pool: Pool, ghost given: seq<multiset<Lease>>)
    ensures fresh(pool) && pool.Valid() && pool.termsOf == termsOf && pool.maxConnsWaitQueue == maxConnsWaitQueue
    ensures forall h :: h in pool.protocolsPerSchema ==>
      && InUse(pool.protocolsPerSchema[h]) <= termsOf(h).limit
      && |pool.protocolsPerSchema[h].haveSlotsCallbacks| <= maxConnsWaitQueue
      && pool.connecting[h] == pool.protocolsPerSchema[h].nConnecting
    ensures pool.nIdleAll == Idle(pool.protocolsPerSchema)
    ensures pool.nBusyAll == Used(pool.protocolsPerSchema) + |pool.closing|
    ensures |given| == |events| && forall k :: 0 <= k < |events| && given[k] != multiset{} ==> HandsOut(events[k].1)
    ensures forall k :: 0 <= k < |events| ==> RightHost(events[k].1, given[k], pool.hosts)
    ensures (forall k :: 0 <= k < |events| ==> !HarmAt(termsOf, events, given, k)) ==>
      HeldBy(pool.protocolsPerSchema, HoldersAfter(termsOf, events, given))
    ensures events != [] && (forall k :: 0 <= k < |events| - 1 ==> !HarmAt(termsOf, events, given, k)) ==>
      (HeldBy(pool.protocolsPerSchema, HoldersAfter(termsOf, events, given)) <==>
        !HarmAt(termsOf, events, given, |events| - 1))
  {
    hide Tallied, Homed, EntryOk, Idle, Used, Agrees, At, InUse, Pool.Valid;
    hide HeldBy, Harms, HoldersNext, HoldersAfter, HarmAt, Booked, RightHost, HostsGrow;
    pool := new Pool(termsOf, maxConnsWaitQueue);
    NothingBooked(termsOf, pool.protocolsPerSchema);
    var lastId: nat := 0;
    given := [];
    for k := 0 to |events|
      invariant fresh(pool) && pool.Valid() && pool.termsOf == termsOf && pool.maxConnsWaitQueue == maxConnsWaitQueue
      invariant forall id :: id in pool.place || id in pool.hosts ==> id <= lastId
      invariant forall d :: d in pool.takeCareOfDisconneced ==> Agrees(d, termsOf)
      invariant |given| == k && forall j :: 0 <= j < k && given[j] != multiset{} ==> HandsOut(events[j].1)
      invariant forall j :: 0 <= j < k ==> RightHost(events[j].1, given[j], pool.hosts)
      invariant Booked(termsOf, events[..k], given, pool.protocolsPerSchema)
    {
      ghost var holders, es := HoldersAfter(termsOf, events[..k], given), pool.protocolsPerSchema;
      ghost var hosts := pool.hosts;
      lastId := lastId + 1;
      ghost var got := Happen(pool, events[k].0, events[k].1, lastId, times, holders);
      BookedOn(termsOf, events[..k], given, es, events[k], got, pool.protocolsPerSchema);
      assert events[..k] + [events[k]] == events[..k + 1];
      forall j | 0 <= j < k
        ensures RightHost(events[j].1, given[j], pool.hosts)
      {
        StillRightHost(events[j].1, given[j], hosts, pool.hosts);
      }
      given := given + [got];
    }
    assert events[..|events|] == events;
    pool.Within();
    BookedMeans(termsOf, events, given, pool.protocolsPerSchema);
  }

  /** What `Run` says at its end, at any time. */
  ghost predicate Booked(termsOf: int -> Terms, events: seq<(int, Event)>, given: seq<multiset<Lease>>,
      es: map<int, Protocols>)
    requires |given| == |events|
  {
    && ((forall k :: 0 <= k < |events| ==> !HarmAt(termsOf, events, given, k)) ==>
          HeldBy(es, HoldersAfter(termsOf, events, given)))
    && (events != [] && (forall k :: 0 <= k < |events| - 1 ==> !HarmAt(termsOf, events, given, k)) ==>
          (HeldBy(es, HoldersAfter(termsOf, events, given)) <==> !HarmAt(termsOf, events, given, |events| - 1)))
  }

  lemma BookedOn(termsOf: int -> Terms, events: seq<(int, Event)>, given: seq<multiset<Lease>>, es: map<int, Protocols>,
      e: (int, Event), got: multiset<Lease>, es': map<int, Protocols>)
    requires |given| == |events| && Booked(termsOf, events, given, es)
    requires var holders := HoldersAfter(termsOf, events, given);
      HeldBy(es, holders) ==>
        (HeldBy(es', HoldersNext(termsOf, e.1, got, holders)) <==> !Harms(termsOf, e.1, holders))
    ensures Booked(termsOf, events + [e], given + [got], es')
  {
    hide HeldBy, Harms, HoldersNext;
    var n, all, handed := |events|, events + [e], given + [got];
    assert all[..n] == events && handed[..n] == given;
    assert HarmAt(termsOf, all, handed, n) <==> Harms(termsOf, e.1, HoldersAfter(termsOf, events, given));
    assert HoldersAfter(termsOf, all, handed) ==
      HoldersNext(termsOf, e.1, got, HoldersAfter(termsOf, events, given));
    SameHarms(termsOf, events, given, e, got);
    hide HarmAt, HoldersAfter;
  }

  lemma SameHarms(termsOf: int -> Terms, events: seq<(int, Event)>, given: seq<multiset<Lease>>, e: (int, Event),
      got: multiset<Lease>)
    requires |given| == |events|
    ensures forall k: nat :: k < |events| ==>
      (HarmAt(termsOf, events + [e], given + [got], k) <==> HarmAt(termsOf, events, given, k))
  {
    hide Harms, HoldersAfter;
    var all, handed := events + [e], given + [got];
    forall k: nat | k < |events|
      ensures HarmAt(termsOf, all, handed, k) <==> HarmAt(termsOf, events, given, k)
    {
      assert all[..k] == events[..k] && handed[..k] == given[..k];
    }
  }

  lemma NothingBooked(termsOf: int -> Terms, es: map<int, Protocols>)
    requires es == map[]
    ensures Booked(termsOf, [], [], es)
  {
  }

  lemma BookedMeans(termsOf: int -> Terms, events: seq<(int, Event)>, given: seq<multiset<Lease>>,
      es: map<int, Protocols>)
    requires |given| == |events| && Booked(termsOf, events, given, es)
    ensures (forall k :: 0 <= k < |events| ==> !HarmAt(termsOf, events, given, k)) ==>
      HeldBy(es, HoldersAfter(termsOf, events, given))
    ensures events != [] && (forall k :: 0 <= k < |events| - 1 ==> !HarmAt(termsOf, events, given, k)) ==>
      (HeldBy(es, HoldersAfter(termsOf, events, given)) <==> !HarmAt(termsOf, events, given, |events| - 1))
  {
  }

  /** One event; one that cannot happen in this state is passed over. */
  method Happen(pool: Pool, now: int, e: Event, id: nat, times: Times, ghost holders: multiset<Lease>)
    returns (ghost given: multiset<Lease>)
    requires pool.Valid() && id !in pool.place && id !in pool.hosts
    requires forall d :: d in pool.takeCareOfDisconneced ==> Agrees(d, pool.termsOf)
    modifies pool
    ensures pool.Valid() && pool.place.Keys <= old(pool.place.Keys) + {id}
    ensures pool.hosts.Keys <= old(pool.hosts.Keys) + {id} && HostsGrow(old(pool.hosts), pool.hosts)
    ensures RightHost(e, given, pool.hosts)
    ensures forall d :: d in pool.takeCareOfDisconneced ==> Agrees(d, pool.termsOf)
    ensures given != multiset{} ==> HandsOut(e)
    ensures HeldBy(old(pool.protocolsPerSchema), holders) ==>
      (HeldBy(pool.protocolsPerSchema, HoldersNext(pool.termsOf, e, given, holders)) <==>
        !Harms(pool.termsOf, e, holders))
  {
    hide Tallied, Homed, EntryOk, Idle, Used, BusyIds, Agrees, At, InUse, Joined, Handed, HeldBy, TakesAnothers,
      Pool.Valid;
    if e.Returns? {
      given := multiset{};
      NothingHome(e, pool.hosts);
      if Agrees(e.p.dsn, pool.termsOf) {
        GiveBack(pool, e.p, e.reusable, id, holders);
      }
    } else {
      given := HappenOther(pool, now, e, id, times);
      HandedOn(old(pool.protocolsPerSchema), given, pool.protocolsPerSchema, holders);
    }
  }

  method HappenOther(pool: Pool, now: int, e: Event, id: nat, times: Times) returns (ghost given: multiset<Lease>)
    requires pool.Valid() && id !in pool.place && id !in pool.hosts && !e.Returns?
    requires forall d :: d in pool.takeCareOfDisconneced ==> Agrees(d, pool.termsOf)
    modifies pool
    ensures pool.Valid() && pool.place.Keys <= old(pool.place.Keys) + {id}
    ensures pool.hosts.Keys <= old(pool.hosts.Keys) + {id} && HostsGrow(old(pool.hosts), pool.hosts)
    ensures RightHost(e, given, pool.hosts)
    ensures forall d :: d in pool.takeCareOfDisconneced ==> Agrees(d, pool.termsOf)
    ensures given != multiset{} ==> HandsOut(e)
    ensures Handed(old(pool.protocolsPerSchema), given, pool.protocolsPerSchema)
  {
    hide Tallied, Homed, EntryOk, Idle, Used, BusyIds, Agrees, At, InUse, Joined, Handed, SameBusy, IdleOnly,
      Pool.Valid;
    given := multiset{};
    SameIsSame(pool.protocolsPerSchema);
    match e {
      case Asks(dsn, till) =>
        if Agrees(dsn, pool.termsOf) {
          given := Ask(pool, dsn, false, now, till, times);
        }
      case Resumes(dsn, till) =>
        if Agrees(dsn, pool.termsOf) && dsn.hash in pool.asleep {
          given := Ask(pool, dsn, true, now, till, times);
        }
      case Connects(dsn) =>
        if Agrees(dsn, pool.termsOf) && dsn.hash in pool.connecting {
          given := Arrive(pool, dsn, id, now, times);
        }
      case Fails(h) =>
        if h in pool.connecting {
          var _ := pool.NotConnected(h);
          NobodyServed(old(pool.protocolsPerSchema), pool.protocolsPerSchema);
        }
      case FailsRetry(dsn) =>
        if Agrees(dsn, pool.termsOf) && dsn.hash in pool.connecting {
          var _ := pool.RetryFails(dsn);
          NobodyServed(old(pool.protocolsPerSchema), pool.protocolsPerSchema);
        }
      case Closes(h) =>
        if h in pool.closing {
          var _ := pool.ConnClosed(h);
          NobodyServed(old(pool.protocolsPerSchema), pool.protocolsPerSchema);
        }
      case Remembers(dsn) =>
        if Agrees(dsn, pool.termsOf) {
          pool.Remember(dsn);
        }
      case Cleans(closeAllIdle, healthIsEmpty, till) =>
        given := Clean(pool, now, closeAllIdle, healthIsEmpty, till, times);
    }
  }

  /** `GetProtocol`, and what its caller holds then. */
  method Ask(pool: Pool, dsn: Dsn, resumed: bool, now: int, till: int, times: Times)
    returns (ghost held: multiset<Lease>)
    requires pool.Valid() && Agrees(dsn, pool.termsOf) && (resumed ==> dsn.hash in pool.asleep)
    modifies pool`protocolsPerSchema, pool`place, pool`nIdleAll, pool`nBusyAll, pool`closing, pool`connecting
    modifies pool`ticking, pool`lastWaiter, pool`asleep
    ensures pool.Valid() && pool.place.Keys <= old(pool.place.Keys)
    ensures Handed(old(pool.protocolsPerSchema), held, pool.protocolsPerSchema)
    ensures AtHosts(held, pool.hosts)
    ensures forall l :: l in held ==> l.dsn.hash == dsn.hash && l.dsn.hashNoSchema == dsn.hashNoSchema
  {
    hide Tallied, Homed, EntryOk, Idle, Used, Handed, IdleOnly, BusyIds, Uses, Served, FitFor;
    pool.IdleUnleased();
    var got, _ := pool.GetProtocol(dsn, resumed, now, till, times.reconnectInterval, times.keepAliveTimeout,
      times.keepAliveMax);
    LeaseServed(old(pool.protocolsPerSchema), pool.protocolsPerSchema, dsn.hash, got);
    held := HeldOf(got);
  }

  /** `CommonTask`, and what it holds then; an entry that somebody sleeps on has a health that is not empty. */
  method Clean(pool: Pool, now: int, closeAllIdle: bool, healthIsEmpty: int -> bool, till: int, times: Times)
    returns (ghost held: multiset<Lease>)
    requires pool.Valid()
    requires forall d :: d in pool.takeCareOfDisconneced ==> Agrees(d, pool.termsOf)
    modifies pool`protocolsPerSchema, pool`place, pool`nIdleAll, pool`nBusyAll, pool`closing, pool`connecting
    modifies pool`ticking, pool`lastWaiter, pool`asleep, pool`takeCareOfDisconneced
    ensures pool.Valid() && pool.place.Keys <= old(pool.place.Keys)
    ensures Handed(old(pool.protocolsPerSchema), held, pool.protocolsPerSchema) && AtHosts(held, pool.hosts)
    ensures forall d :: d in pool.takeCareOfDisconneced ==> d in old(pool.takeCareOfDisconneced)
  {
    hide Tallied, Homed, EntryOk, Idle, Used, BusyIds, Handed, Joined;
    var asleep := pool.asleep;
    var _, more := pool.CommonTask(now, closeAllIdle, h => healthIsEmpty(h) && h !in asleep, till,
      times.reconnectInterval, times.keepAliveTimeout, times.keepAliveMax);
    held := more;
  }

  /** `Connected`, with a connection of a new number. */
  method Arrive(pool: Pool, dsn: Dsn, id: nat, now: int, times: Times) returns (ghost held: multiset<Lease>)
    requires pool.Valid() && dsn.hash in pool.connecting && id !in pool.place && id !in pool.hosts
    requires Agrees(dsn, pool.termsOf)
    modifies pool`protocolsPerSchema, pool`place, pool`nBusyAll, pool`ticking, pool`connecting, pool`hosts
    ensures pool.Valid() && pool.place.Keys == old(pool.place.Keys) + {id}
    ensures Handed(old(pool.protocolsPerSchema), held, pool.protocolsPerSchema)
    ensures held == multiset{Lease(id, dsn)} && pool.hosts == old(pool.hosts)[id := dsn.hashNoSchema]
  {
    hide Tallied, Homed, EntryOk, Idle, Used, BusyIds, Handed, Uses;
    pool.IdleUnleased();
    var p := Protocol(id, dsn, times.useTill, times.useNTimes);
    pool.Connected(dsn, p, now, times.keepAliveTimeout, times.keepAliveMax);
    ghost var busy := pool.protocolsPerSchema[dsn.hash].busy;
    held := multiset{Lease(id, dsn)};
    OneServed(old(pool.protocolsPerSchema), pool.protocolsPerSchema, dsn.hash, busy[|busy| - 1]);
  }

  /** `ReturnProtocol`: the books stay right if and only if it does not take a connection from another holder. */
  method GiveBack(pool: Pool, p: Protocol, reusable: bool, id: nat, ghost holders: multiset<Lease>)
    requires pool.Valid() && Agrees(p.dsn, pool.termsOf) && id !in pool.place && id !in pool.hosts
    modifies pool`protocolsPerSchema, pool`place, pool`nIdleAll, pool`nBusyAll, pool`ticking, pool`ended, pool`hosts
    ensures pool.Valid() && pool.place.Keys <= old(pool.place.Keys) + {id}
    ensures pool.hosts.Keys <= old(pool.hosts.Keys) + {id} && HostsGrow(old(pool.hosts), pool.hosts)
    ensures HeldBy(old(pool.protocolsPerSchema), holders) ==>
      (HeldBy(pool.protocolsPerSchema, holders - multiset{LeaseOf(p)}) <==> !TakesAnothers(p, holders))
  {
    hide Tallied, Homed, EntryOk, Idle, Used, BusyIds, HeldBy, TakesAnothers;
    pool.BusyDistinct(p.dsn.hash);
    pool.FoundBusy(p);
    var reuse := if reusable then Some(Protocol(id, p.dsn, p.useTill, p.useNTimes - 1)) else None;
    var released, _ := pool.ReturnProtocol(p, reuse);
    GaveBack(old(pool.protocolsPerSchema), pool.protocolsPerSchema, holders, p, released);
  }

  lemma GaveBack(es: map<int, Protocols>, es': map<int, Protocols>, holders: multiset<Lease>, p: Protocol,
      released: Option<Protocol>)
    requires var busy, rest := At(es, p.dsn.hash).busy, At(es', p.dsn.hash).busy;
      && DistinctIds(busy) && (forall q :: q in busy ==> q.dsn.hash == p.dsn.hash)
      && (if released.None? then es' == es else
            && released.value in busy && multiset(rest) == multiset(busy) - multiset{released.value}
            && (forall k :: k != p.dsn.hash ==> At(es', k).busy == At(es, k).busy)
            && (released.value.id == p.id || released.value.dsn == p.dsn))
      && ((exists q :: q in busy && q.id == p.id) ==> released.Some? && released.value.id == p.id)
      && ((exists q :: q in busy && q.dsn == p.dsn) ==> released.Some?)
    ensures HeldBy(es, holders) ==>
      (HeldBy(es', holders - multiset{LeaseOf(p)}) <==> !TakesAnothers(p, holders))
  {
    if HeldBy(es, holders) {
      var busy, rest, l := At(es, p.dsn.hash).busy, At(es', p.dsn.hash).busy, LeaseOf(p);
      LeaseIn(busy, l);
      if released.None? {
        NobodyTaken(es, holders, p);
        assert holders - multiset{l} == holders;
      } else {
        UsesLess(es, es', p.dsn.hash, released.value);
        LeaseIn(busy, LeaseOf(released.value));
        if l in holders {
          SameId(busy, released.value, p);
        }
        TookOne(es, es', holders, p, released.value);
      }
    }
  }

  lemma TookOne(es: map<int, Protocols>, es': map<int, Protocols>, holders: multiset<Lease>, p: Protocol, r: Protocol)
    requires HeldBy(es, holders) && forall l :: Uses(es', l) == if l == LeaseOf(r) then 0 else Uses(es, l)
    requires r.dsn.hash == p.dsn.hash && (r.id == p.id || r.dsn == p.dsn) && Uses(es, LeaseOf(r)) == 1
    requires LeaseOf(p) in holders ==> LeaseOf(r) == LeaseOf(p)
    ensures HeldBy(es', holders - multiset{LeaseOf(p)}) <==> !TakesAnothers(p, holders)
  {
    hide Uses;
    var l := LeaseOf(p);
    if l !in holders {
      assert holders[LeaseOf(r)] == 1 && Uses(es', LeaseOf(r)) == 0;
      assert holders - multiset{l} == holders;
      assert TakesAnothers(p, holders);
    }
  }

  lemma LeaseIn(busy: seq<Protocol>, l: Lease)
    ensures Leased(busy, l) <==> exists q :: q in busy && LeaseOf(q) == l
  {
    if q :| q in busy && LeaseOf(q) == l {
      var i :| 0 <= i < |busy| && busy[i] == q;
    }
  }

  lemma SameId(busy: seq<Protocol>, r: Protocol, p: Protocol)
    requires DistinctIds(busy) && r in busy && r.id == p.id && Leased(busy, LeaseOf(p))
    ensures LeaseOf(r) == LeaseOf(p)
  {
    var i :| 0 <= i < |busy| && LeaseOf(busy[i]) == LeaseOf(p);
    var j :| 0 <= j < |busy| && busy[j] == r;
  }

  lemma UsesLess(es: map<int, Protocols>, es': map<int, Protocols>, h: int, r: Protocol)
    requires var busy, rest := At(es, h).busy, At(es', h).busy;
      && DistinctIds(busy) && r in busy && r.dsn.hash == h && multiset(rest) == multiset(busy) - multiset{r}
      && forall k :: k != h ==> At(es', k).busy == At(es, k).busy
    ensures forall l :: Uses(es', l) == if l == LeaseOf(r) then 0 else Uses(es, l)
  {
    forall l: Lease
      ensures Uses(es', l) == if l == LeaseOf(r) then 0 else Uses(es, l)
    {
      if l.dsn.hash == h {
        OneReleased(At(es, h).busy, At(es', h).busy, r, l);
      }
    }
  }

  /** Neither the connection nor one of its Dsn is in use. */
  lemma NobodyTaken(es: map<int, Protocols>, holders: multiset<Lease>, p: Protocol)
    requires HeldBy(es, holders)
    requires forall q :: q in At(es, p.dsn.hash).busy ==> q.id != p.id && q.dsn != p.dsn
    ensures LeaseOf(p) !in holders && !TakesAnothers(p, holders)
  {
    forall l | l in holders && l.dsn.hash == p.dsn.hash
      ensures l.dsn != p.dsn && l.id != p.id
    {
      assert Uses(es, l) == holders[l];
      LeaseIn(At(es, l.dsn.hash).busy, l);
    }
  }

  // ---- runs that show what can go wrong

  /** Two connections are opened for one Dsn object, and the first is given back twice: the second is gone then. */
  method ReturnedTwice(dsn: Dsn, now: int) returns (pool: Pool, second: Protocol, released: Option<Protocol>)
    requires Limit(dsn.maxConns) >= 2
    ensures released == Some(second) && second.id == 1 && second.id !in pool.place
  {
    hide Tallied, Homed, EntryOk, Idle, Used, BusyIds;
    var h := dsn.hash;
    pool := new Pool(_ => Terms(Limit(dsn.maxConns), dsn.hashNoSchema), 0);
    var first := OpenOne(pool, dsn, 0, now);
    second := OpenOne(pool, dsn, 1, now);
    released := GiveTwice(pool, first, second);
  }

  method GiveTwice(pool: Pool, first: Protocol, second: Protocol) returns (released: Option<Protocol>)
    requires pool.Valid() && first.dsn == second.dsn && first.id != second.id
    requires Agrees(first.dsn, pool.termsOf)
    requires At(pool.protocolsPerSchema, first.dsn.hash).busy == [first, second]
    modifies pool
    ensures pool.Valid() && released == Some(second) && second.id !in pool.place
  {
    hide Tallied, Homed, EntryOk, Idle, Used, BusyIds, Pool.Valid, Agrees, Elsewhere;
    assert pool.protocolsPerSchema[first.dsn.hash].busy[0] == first;
    var r, _ := pool.ReturnProtocol(first, None);
    assert r == Some(first) && multiset([first, second]) - multiset{first} == multiset{second};
    OneLeft(pool.protocolsPerSchema[first.dsn.hash].busy, second);
    var woken;
    released, woken := pool.ReturnProtocol(first, None);
  }

  lemma NoneOf(m: multiset<int>, h: int)
    requires forall k :: k in m ==> k == h
    ensures |m| == m[h]
  {
    var rest := m[h := 0];
    assert forall k :: k in rest ==> k in m && k != h;
    assert rest == multiset{};
    assert m == rest[h := m[h]];
  }

  lemma NobodyTook(taken: seq<nat>)
    requires Joined({}, taken, {})
    ensures taken == []
  {
    var nobody: set<nat> := {};
    forall x: nat
      ensures multiset(taken)[x] == 0
    {
      assert multiset(nobody)[x] == multiset(nobody)[x] + multiset(taken)[x];
    }
    assert multiset(taken) == multiset{};
    assert |multiset(taken)| == |taken|;
  }

  lemma NobodyHolds(place: map<nat, Place>)
    requires place.Keys == {}
    ensures BusyIds(place) == {}
  {
  }

  lemma OneLeft<T>(s: seq<T>, x: T)
    requires multiset(s) == multiset{x}
    ensures s == [x]
  {
    assert |s| == |multiset(s)|;
    assert s[0] in multiset(s);
  }

  /** A connection is opened for `dsn`, when no connection is idle. */
  method OpenOne(pool: Pool, dsn: Dsn, id: nat, now: int) returns (p: Protocol)
    requires pool.Valid() && Agrees(dsn, pool.termsOf) && id !in pool.place && id !in pool.hosts
    requires forall k :: k in pool.place ==> pool.place[k].BusyAt?
    requires InUse(At(pool.protocolsPerSchema, dsn.hash)) < pool.termsOf(dsn.hash).limit
    requires At(pool.protocolsPerSchema, dsn.hash).nConnecting == 0
    modifies pool
    ensures pool.Valid() && p.id == id && p.dsn == dsn
    ensures pool.place.Keys == old(pool.place.Keys) + {id} && forall k :: k in pool.place ==> pool.place[k].BusyAt?
    ensures pool.hosts.Keys == old(pool.hosts.Keys) + {id}
    ensures var e := At(pool.protocolsPerSchema, dsn.hash);
      e.busy == At(old(pool.protocolsPerSchema), dsn.hash).busy + [p] && e.nConnecting == 0
  {
    hide Tallied, Homed, EntryOk, Idle, Used;
    var _, _ := pool.GetProtocol(dsn, false, now, now, 0, 0, 0);
    assert pool.place.Keys == BusyIds(pool.place) == BusyIds(old(pool.place));
    p := Protocol(id, dsn, now, 1);
    pool.Connected(dsn, p, now, 0, 1);
    p := pool.protocolsPerSchema[dsn.hash].busy[|pool.protocolsPerSchema[dsn.hash].busy| - 1];
  }

  /**
   A connection has to be taken care of, and the server is down: the periodic task fails to connect, and
   the interval is stopped while `dsn` still waits for it.
   */
  method RetryForgotten(dsn: Dsn, now: int) returns (pool: Pool)
    ensures pool.Valid() && pool.takeCareOfDisconneced == [dsn] && !pool.ticking
  {
    hide Tallied, Homed, EntryOk, Idle, Used, BusyIds, Joined;
    pool := new Pool(_ => Terms(Limit(dsn.maxConns), dsn.hashNoSchema), 0);
    pool.Remember(dsn);
    NobodyHolds(pool.place);
    var taken, _ := pool.CommonTask(now, false, _ => true, now, 0, 0, 0);
    NobodyHolds(pool.place);
    NobodyTook(taken);
    pool.OnlyOneAsked(dsn);
    pool.Within();
    pool.IdleNotNegative();
    var _ := pool.RetryFails(dsn);
  }

  /** To those that were busy some have joined, that were not. */
  ghost predicate Joined(busy: set<nat>, taken: seq<nat>, all: set<nat>) {
    multiset(all) == multiset(busy) + multiset(taken)
  }

  lemma NobodyJoined(busy: set<nat>)
    ensures Joined(busy, [], busy)
  {
  }

  lemma OneJoined(busy: set<nat>, taken: seq<nat>, all: set<nat>, id: nat)
    requires Joined(busy, taken, all) && id !in all
    ensures Joined(busy, taken + [id], all + {id})
  {
    assert multiset(all + {id}) == multiset(all) + multiset{id};
  }

  lemma InEither<T>(s: seq<T>, kept: seq<T>, dropped: seq<T>, x: T)
    requires multiset(kept) + multiset(dropped) == multiset(s) && x in s
    ensures x in kept || x in dropped
  {
    assert x in multiset(s);
  }

  lemma FirstIsIn<T>(s: seq<T>)
    ensures |s| > 0 ==> s[0] in s
  {
  }

  lemma NothingOk(h: int, limit: nat, queue: nat, place: map<nat, Place>, ticking: bool)
    ensures EntryOk(NOTHING, h, limit, queue, place, ticking)
  {
  }

  lemma FindIn<T>(s: seq<T>, has: T -> bool)
    ensures Find(s, has).Some? <==> exists x :: x in s && has(x)
  {
    if x :| x in s && has(x) {
      var i :| 0 <= i < |s| && s[i] == x;
    }
  }

  /** The first element that has the property. */
  function Find<T>(s: seq<T>, has: T -> bool): (r: Option<nat>)
    ensures r.Some? ==> r.value < |s| && has(s[r.value])
    ensures r.None? ==> forall i :: 0 <= i < |s| ==> !has(s[i])
  {
    if s == [] then None
    else if has(s[0]) then Some(0)
    else
      var r := Find(s[1..], has);
      if r.Some? then Some(r.value + 1) else None
  }

  function Min(a: int, b: int): int {
    if a < b then a else b
  }
}
