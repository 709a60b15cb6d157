/**
 The lazy transaction queue of a connection: START and SAVEPOINT wait in `pendingTrxSql`
 until the next query, and rolling back to a point that still waits sends nothing. It is
 compared with a reference that sends each statement at once.
 */
module TrxQueue {
  import opened Bytes
  import opened Results

  /** `savepoint()` of the connection makes points p1, p2, …; that of the session s1, s2, … */
  datatype Name = OfConn(id: nat) | OfSession(id: nat)

  datatype Sql = StartTransaction | Savepoint(name: Name)

  // ---- the server

  datatype Point<D> = Point(name: Name, db: D)

  datatype Trx<D> = Trx(base: D, points: seq<Point<D>>)

  datatype Server<D> = Server(db: D, trx: Option<Trx<D>>)

  /** The points without those named in `names`. */
  function Keep<D>(points: seq<Point<D>>, names: set<Name>): (r: seq<Point<D>>)
    ensures |r| <= |points|
  {
    if points == [] then []
    else if points[0].name in names then Keep(points[1..], names)
    else [points[0]] + Keep(points[1..], names)
  }

  function Saved<D>(points: seq<Point<D>>, name: Name, db: D): seq<Point<D>> {
    Keep(points, {name}) + [Point(name, db)]
  }

  /**
   START commits what was open; SAVEPOINT moves a point of this name to the end, and means nothing outside a
   transaction.
   */
  function Exec<D>(s: Server<D>, sql: Sql): Server<D> {
    match sql
    case StartTransaction => s.(trx := Some(Trx(s.db, [])))
    case Savepoint(name) =>
      if s.trx.None? then s else s.(trx := Some(s.trx.value.(points := Saved(s.trx.value.points, name, s.db))))
  }

  function Flush<D>(s: Server<D>, pending: seq<Sql>): (r: Server<D>)
    ensures r.db == s.db
  {
    if pending == [] then s else Exec(Flush(s, pending[..|pending| - 1]), pending[|pending| - 1])
  }

  /** Where the point is, counted from the end; the length if there is none. */
  function Find<D>(points: seq<Point<D>>, name: Name): (i: nat)
    ensures i <= |points|
    ensures i < |points| ==> points[i].name == name
    ensures i == |points| ==> forall k :: 0 <= k < |points| ==> points[k].name != name
    ensures forall k :: i < k < |points| ==> points[k].name != name
  {
    if points == [] then 0
    else
      var last := |points| - 1;
      if points[last].name == name then last
      else
        var i := Find(points[..last], name);
        if i == last then |points| else i
  }

  predicate HasPoint<D>(s: Server<D>, name: Name) {
    s.trx.Some? && Find(s.trx.value.points, name) < |s.trx.value.points|
  }

  /** ROLLBACK TO: the contents as they were, and the point stays; an error if there is no such point. */
  function BackTo<D>(s: Server<D>, name: Name): Server<D> {
    if HasPoint(s, name) then
      var points := s.trx.value.points;
      var i := Find(points, name);
      Server(points[i].db, Some(s.trx.value.(points := points[..i + 1])))
    else s
  }

  function Committed<D>(s: Server<D>): Server<D> {
    s.(trx := None)
  }

  function RolledBack<D>(s: Server<D>): Server<D> {
    if s.trx.None? then s else Server(s.trx.value.base, None)
  }

  /** ROLLBACK AND CHAIN. */
  function Restarted<D>(s: Server<D>): Server<D> {
    if s.trx.None? then s else Server(s.trx.value.base, Some(Trx(s.trx.value.base, [])))
  }

  // ---- lists of points

  ghost predicate Lacks<D>(points: seq<Point<D>>, names: set<Name>) {
    forall i :: 0 <= i < |points| ==> points[i].name !in names
  }

  /** No two points have one name. */
  ghost predicate Distinct<D>(points: seq<Point<D>>) {
    points == [] ||
    var last := |points| - 1;
    Distinct(points[..last]) && Lacks(points[..last], {points[last].name})
  }

  lemma KeepCons<D>(p: Point<D>, a: seq<Point<D>>, names: set<Name>)
    ensures Keep([p] + a, names) == if p.name in names then Keep(a, names) else [p] + Keep(a, names)
  {
    assert ([p] + a)[1..] == a;
  }

  lemma {:induction false} KeepJoins<D>(a: seq<Point<D>>, b: seq<Point<D>>, names: set<Name>)
    ensures Keep(a + b, names) == Keep(a, names) + Keep(b, names)
  {
    if a == [] {
      assert a + b == b;
      assert Keep(a, names) + Keep(b, names) == Keep(b, names);
    } else {
      hide Keep;
      var p, t := a[0], a[1..];
      assert a == [p] + t && a + b == [p] + (t + b);
      KeepJoins(t, b, names);
      KeepCons(p, t, names);
      KeepCons(p, t + b, names);
      ConcatAssoc([p], Keep(t, names), Keep(b, names));
    }
  }

  lemma {:induction false} KeepTwice<D>(a: seq<Point<D>>, names: set<Name>, more: set<Name>)
    ensures Keep(Keep(a, names), more) == Keep(a, names + more)
  {
    if a != [] {
      KeepTwice(a[1..], names, more);
      if a[0].name !in names {
        assert Keep(a, names)[1..] == Keep(a[1..], names);
      }
    }
  }

  lemma {:induction false} KeepWithin<D>(a: seq<Point<D>>, names: set<Name>)
    ensures forall i :: 0 <= i < |Keep(a, names)| ==> Keep(a, names)[i] in a && Keep(a, names)[i].name !in names
  {
    if a != [] {
      KeepWithin(a[1..], names);
      forall i | 0 <= i < |Keep(a, names)|
        ensures Keep(a, names)[i] in a && Keep(a, names)[i].name !in names
      {
        var k := if a[0].name in names then i else i - 1;
        assert k >= 0 ==> Keep(a, names)[i] == Keep(a[1..], names)[k];
      }
    }
  }

  lemma {:induction false} KeepAll<D>(a: seq<Point<D>>, names: set<Name>)
    requires Lacks(a, names)
    ensures Keep(a, names) == a
  {
    if a != [] {
      KeepAll(a[1..], names);
    }
  }

  lemma {:induction false} KeepDistinct<D>(a: seq<Point<D>>, names: set<Name>)
    requires Distinct(a)
    ensures Distinct(Keep(a, names))
    decreases |a|
  {
    if a != [] {
      var init, last := a[..|a| - 1], a[|a| - 1];
      KeepDistinct(init, names);
      KeepWithin(init, names);
      KeepJoins(init, [last], names);
      assert a == init + [last];
      if last.name !in names {
        assert Keep([last], names) == [last];
        DistinctSnoc(Keep(init, names), last);
      } else {
        assert Keep(init, names) + [] == Keep(init, names);
      }
    }
  }

  lemma DistinctSnoc<D>(a: seq<Point<D>>, p: Point<D>)
    requires Distinct(a) && Lacks(a, {p.name})
    ensures Distinct(a + [p])
  {
    assert (a + [p])[..|a|] == a;
  }

  lemma SavedDistinct<D>(a: seq<Point<D>>, name: Name, db: D)
    requires Distinct(a)
    ensures Distinct(Saved(a, name, db))
  {
    KeepDistinct(a, {name});
    KeepWithin(a, {name});
    DistinctSnoc(Keep(a, {name}), Point(name, db));
  }

  lemma {:induction false} DistinctPrefix<D>(a: seq<Point<D>>, k: nat)
    requires Distinct(a) && k <= |a|
    ensures Distinct(a[..k]) && (k < |a| ==> Lacks(a[..k], {a[k].name}))
    decreases |a|
  {
    if k < |a| {
      var init := a[..|a| - 1];
      assert init[..k] == a[..k];
      if k < |a| - 1 {
        DistinctPrefix(init, k);
      }
    } else {
      assert a[..k] == a;
    }
  }

  /** One place of a name. */
  lemma SplitOnce<D>(a: seq<Point<D>>, b: seq<Point<D>>, c: seq<Point<D>>, d: seq<Point<D>>, p: Point<D>, q: Point<D>)
    requires a + [p] + b == c + [q] + d && p.name == q.name
    requires Lacks(a, {p.name}) && Lacks(c, {p.name})
    ensures a == c && p == q && b == d
  {
    var s := a + [p] + b;
    assert forall k :: 0 <= k < |a| ==> s[k] == a[k];
    assert forall k :: 0 <= k < |c| ==> s[k] == c[k];
    assert s[|a|] == p && s[|c|] == q;
    if |a| != |c| {
      assert false;
    }
    assert a == s[..|a|] && c == s[..|c|] && b == s[|a| + 1..] && d == s[|c| + 1..];
  }

  // ---- what the queue stands for

  predicate SameKind(a: Name, b: Name) {
    a.OfSession? == b.OfSession?
  }

  /** The scan of `rollback()`: from the end, as long as the points are of the same kind. */
  function Scan(pending: seq<Sql>, name: Name): (r: Option<nat>)
    ensures r.Some? ==> r.value < |pending| && pending[r.value] == Savepoint(name)
    ensures r.Some? ==> forall k :: r.value < k < |pending| ==> pending[k].Savepoint? && pending[k].name != name
  {
    if pending == [] then None
    else
      var last := |pending| - 1;
      if pending[last].StartTransaction? || !SameKind(pending[last].name, name) then None
      else if pending[last].name == name then Some(last)
      else Scan(pending[..last], name)
  }

  function Names(pending: seq<Sql>): set<Name> {
    set k | 0 <= k < |pending| && pending[k].Savepoint? :: pending[k].name
  }

  function PointNames<D>(points: seq<Point<D>>): set<Name> {
    set k | 0 <= k < |points| :: points[k].name
  }

  ghost predicate WellFormed<D>(s: Server<D>) {
    s.trx.Some? ==> Distinct(s.trx.value.points)
  }

  /** Two servers with the same contents and the same points, apart from those in `stale`. */
  ghost predicate Alike<D>(v: Server<D>, e: Server<D>, stale: set<Name>) {
    && v.db == e.db && v.trx.Some? == e.trx.Some? && WellFormed(v) && WellFormed(e)
    && (v.trx.Some? ==>
          && v.trx.value.base == e.trx.value.base
          && Keep(v.trx.value.points, stale) == Keep(e.trx.value.points, stale))
  }

  lemma FlushOne<D>(s: Server<D>, pending: seq<Sql>, sql: Sql)
    ensures Flush(s, pending + [sql]) == Exec(Flush(s, pending), sql)
  {
    assert (pending + [sql])[..|pending|] == pending;
  }

  lemma FlushWellFormed<D>(s: Server<D>, pending: seq<Sql>)
    requires WellFormed(s)
    ensures WellFormed(Flush(s, pending))
  {
    if pending != [] {
      var t := Flush(s, pending[..|pending| - 1]);
      FlushWellFormed(s, pending[..|pending| - 1]);
      if t.trx.Some? && pending[|pending| - 1].Savepoint? {
        SavedDistinct(t.trx.value.points, pending[|pending| - 1].name, t.db);
      }
    }
  }

  /** Adding a point keeps two servers alike, and the point is as good as new. */
  lemma SavepointAlike<D>(v: Server<D>, e: Server<D>, stale: set<Name>, name: Name)
    requires Alike(v, e, stale)
    ensures Alike(Exec(v, Savepoint(name)), Exec(e, Savepoint(name)), stale - {name})
  {
    if v.trx.Some? {
      var a, b := v.trx.value.points, e.trx.value.points;
      SavedDistinct(a, name, v.db);
      SavedDistinct(b, name, e.db);
      SavedKept(a, name, v.db, stale);
      SavedKept(b, name, e.db, stale);
    }
  }

  lemma SavedKept<D>(a: seq<Point<D>>, name: Name, db: D, stale: set<Name>)
    ensures Keep(Saved(a, name, db), stale - {name}) == Keep(Keep(a, stale), {name}) + [Point(name, db)]
  {
    var p := Point(name, db);
    KeepJoins(Keep(a, {name}), [p], stale - {name});
    assert Keep([p], stale - {name}) == [p];
    KeepTwice(a, {name}, stale - {name});
    KeepTwice(a, stale, {name});
    assert {name} + (stale - {name}) == stale + {name};
  }

  /** A point found in `points`, between what is before it and after it. */
  lemma Around<D>(points: seq<Point<D>>, i: nat)
    requires i < |points|
    ensures points == points[..i] + [points[i]] + points[i + 1..]
  {
  }

  /** The points that are not stale are in the same place in both servers. */
  lemma AlikeAround<D>(a: seq<Point<D>>, b: seq<Point<D>>, stale: set<Name>, name: Name, i: nat)
    requires Distinct(a) && Distinct(b) && Keep(a, stale) == Keep(b, stale) && name !in stale
    requires i < |a| && a[i].name == name
    ensures var j := Find(b, name);
      j < |b| && b[j] == a[i] && Keep(a[..i], stale) == Keep(b[..j], stale)
  {
    var j := Find(b, name);
    KeptAround(a, stale, i);
    KeepWithin(b, stale);
    assert Keep(a, stale)[|Keep(a[..i], stale)|] == a[i];
    if j == |b| {
      assert false;
    }
    KeptAround(b, stale, j);
    DistinctPrefix(a, i);
    DistinctPrefix(b, j);
    KeepWithin(a[..i], stale);
    KeepWithin(b[..j], stale);
    SplitOnce(Keep(a[..i], stale), Keep(a[i + 1..], stale), Keep(b[..j], stale), Keep(b[j + 1..], stale), a[i], b[j]);
  }

  lemma KeptAround<D>(a: seq<Point<D>>, stale: set<Name>, i: nat)
    requires i < |a| && a[i].name !in stale
    ensures Keep(a, stale) == Keep(a[..i], stale) + [a[i]] + Keep(a[i + 1..], stale)
  {
    Around(a, i);
    KeepJoins(a[..i] + [a[i]], a[i + 1..], stale);
    KeepJoins(a[..i], [a[i]], stale);
    assert Keep([a[i]], stale) == [a[i]];
  }

  /** Rolling back at the server, to a point that is not stale. */
  lemma BackToAlike<D>(v: Server<D>, e: Server<D>, stale: set<Name>, name: Name)
    requires Alike(v, e, stale) && name !in stale
    ensures HasPoint(v, name) == HasPoint(e, name)
    ensures Alike(BackTo(v, name), BackTo(e, name), stale)
  {
    if v.trx.Some? {
      var a, b := v.trx.value.points, e.trx.value.points;
      var i, j := Find(a, name), Find(b, name);
      if i < |a| {
        AlikeAround(a, b, stale, name, i);
        PrefixKept(a, stale, i);
        PrefixKept(b, stale, j);
        DistinctPrefix(a, i + 1);
        DistinctPrefix(b, j + 1);
      } else if j < |b| {
        AlikeAround(b, a, stale, name, j);
      }
    }
  }

  lemma PrefixKept<D>(a: seq<Point<D>>, stale: set<Name>, i: nat)
    requires i < |a| && a[i].name !in stale
    ensures Keep(a[..i + 1], stale) == Keep(a[..i], stale) + [a[i]]
  {
    assert a[..i + 1] == a[..i] + [a[i]];
    KeepJoins(a[..i], [a[i]], stale);
    assert Keep([a[i]], stale) == [a[i]];
  }

  /** The points after flushing `pending[i..k]`: the one made first, with some after it, and what was kept before it. */
  lemma {:induction false} Suffix<D>(s: Server<D>, pending: seq<Sql>, i: nat, k: nat) returns (z: seq<Point<D>>)
    requires i < k <= |pending| && Flush(s, pending[..i]).trx.Some?
    requires forall j :: i <= j < k ==> pending[j].Savepoint?
    requires forall j :: i < j < k ==> pending[j].name != pending[i].name
    ensures var before, after := Flush(s, pending[..i]).trx.value, Flush(s, pending[..k]).trx;
      && after.Some? && after.value.base == before.base
      && after.value.points == Keep(before.points, Names(pending[i..k])) + [Point(pending[i].name, s.db)] + z
    decreases k
  {
    hide Keep, Names;
    var before := Flush(s, pending[..i]).trx.value.points;
    var p := Point(pending[i].name, s.db);
    var m := pending[k - 1].name;
    assert pending[..k][..k - 1] == pending[..k - 1] && pending[i..k] == pending[i..k - 1] + [pending[k - 1]];
    NamesSnoc(pending[i..k - 1], pending[k - 1]);
    if k == i + 1 {
      assert pending[i..k - 1] == [];
      assert Names([]) == {} by {
        NoNames();
      }
      assert Names(pending[i..k]) == {m};
      z := [];
      var w := Keep(before, {m});
      assert w + [p] + z == w + [p];
    } else {
      var y := Suffix(s, pending, i, k - 1);
      z := Keep(y, {m}) + [Point(m, s.db)];
      SavedAfter(before, Names(pending[i..k - 1]), p, y, m, s.db);
    }
  }

  lemma NoNames()
    ensures Names([]) == {}
  {
  }

  lemma SavedAfter<D>(before: seq<Point<D>>, names: set<Name>, p: Point<D>, y: seq<Point<D>>, m: Name, db: D)
    requires p.name != m
    ensures Saved(Keep(before, names) + [p] + y, m, db) ==
      Keep(before, names + {m}) + [p] + (Keep(y, {m}) + [Point(m, db)])
  {
    hide Keep;
    var w := Keep(before, names);
    KeepJoins(w + [p], y, {m});
    KeepJoins(w, [p], {m});
    KeepOne(p, {m});
    KeepTwice(before, names, {m});
    ConcatAssoc(Keep(before, names + {m}) + [p], Keep(y, {m}), [Point(m, db)]);
  }

  lemma KeepOne<D>(p: Point<D>, names: set<Name>)
    requires p.name !in names
    ensures Keep([p], names) == [p]
  {
  }

  lemma NamesSnoc(pending: seq<Sql>, sql: Sql)
    requires sql.Savepoint?
    ensures Names(pending + [sql]) == Names(pending) + {sql.name}
  {
    var all := pending + [sql];
    forall n | n in Names(pending)
      ensures n in Names(all)
    {
      var k :| 0 <= k < |pending| && pending[k].Savepoint? && pending[k].name == n;
      assert all[k] == pending[k];
    }
    assert all[|pending|] == sql;
  }

  /**
   The points that rolling back to a waiting point makes stale: that point (the reference keeps it,
   the queue forgets it), and those of the forgotten that have an older namesake at the server.
   */
  function Forgotten<D>(s: Server<D>, pending: seq<Sql>, i: nat): set<Name>
    requires i < |pending| && pending[i].Savepoint?
  {
    var t := Flush(s, pending[..i]).trx;
    {pending[i].name} + (if t.Some? then Names(pending[i..]) * PointNames(t.value.points) else {})
  }

  lemma CutPoints<D>(before: seq<Point<D>>, names: set<Name>, a: seq<Point<D>>, i: nat, b: seq<Point<D>>,
      stale: set<Name>, out: set<Name>)
    requires i < |a| && a[..i] == Keep(before, names) && a[i].name !in stale && a[i].name in out
    requires Distinct(a) && Distinct(b) && Keep(a, stale) == Keep(b, stale)
    requires stale <= out && names * PointNames(before) <= out
    ensures var j := Find(b, a[i].name);
      j < |b| && b[j] == a[i] && Keep(before, out) == Keep(b[..j + 1], out)
  {
    hide Keep, Distinct, PointNames;
    AlikeAround(a, b, stale, a[i].name, i);
    var j := Find(b, a[i].name);
    BeforeTheCut(before, names, b[..j], stale, out);
    LeftOutLast(b, j, out);
  }

  lemma BeforeTheCut<D>(before: seq<Point<D>>, names: set<Name>, b: seq<Point<D>>, stale: set<Name>, out: set<Name>)
    requires Keep(Keep(before, names), stale) == Keep(b, stale)
    requires stale <= out && names * PointNames(before) <= out
    ensures Keep(before, out) == Keep(b, out)
  {
    hide Keep, PointNames;
    KeepTwice(before, names, out);
    KeepTwice(Keep(before, names), stale, out);
    KeepTwice(b, stale, out);
    assert stale + out == out;
    OnlyNamed(before, out, names);
  }

  lemma LeftOutLast<D>(a: seq<Point<D>>, i: nat, names: set<Name>)
    requires i < |a| && a[i].name in names
    ensures Keep(a[..i + 1], names) == Keep(a[..i], names)
  {
    assert a[..i + 1] == a[..i] + [a[i]];
    KeepJoins(a[..i], [a[i]], names);
    assert Keep([a[i]], names) == [];
    assert Keep(a[..i], names) + [] == Keep(a[..i], names);
  }

  /** Cutting the queue is as good as rolling back at the server. */
  lemma CutAlike<D>(s: Server<D>, pending: seq<Sql>, e: Server<D>, stale: set<Name>, i: nat)
    requires i < |pending| && pending[i].Savepoint? && pending[i].name !in stale
    requires Alike(Flush(s, pending), e, stale) && WellFormed(s) && Flush(s, pending[..i]).trx.Some?
    requires forall j :: i < j < |pending| ==> pending[j].Savepoint? && pending[j].name != pending[i].name
    ensures HasPoint(e, pending[i].name)
    ensures Alike(Flush(s, pending[..i]), BackTo(e, pending[i].name), stale + Forgotten(s, pending, i))
  {
    hide Keep, Distinct, Find, Flush, PointNames;
    var n, names := pending[i].name, Names(pending[i..]);
    assert pending[..|pending|] == pending && pending[i..|pending|] == pending[i..];
    var z := Suffix(s, pending, i, |pending|);
    var t, a, b := Flush(s, pending[..i]).trx.value, Flush(s, pending).trx.value.points, e.trx.value.points;
    assert n in names by {
      assert pending[i..][0] == pending[i];
    }
    var w := Keep(t.points, names);
    assert a[|w|] == Point(n, s.db) && a[..|w|] == w;
    CutPoints(t.points, names, a, |w|, b, stale, stale + Forgotten(s, pending, i));
    FlushWellFormed(s, pending[..i]);
    DistinctPrefix(b, Find(b, n) + 1);
  }

  /** Leaving out names that no point has changes nothing. */
  lemma {:induction false} OnlyNamed<D>(a: seq<Point<D>>, out: set<Name>, names: set<Name>)
    requires names * PointNames(a) <= out
    ensures Keep(a, names + out) == Keep(a, out)
  {
    if a != [] {
      assert a[0].name in PointNames(a);
      forall n | n in PointNames(a[1..])
        ensures n in PointNames(a)
      {
        var k :| 0 <= k < |a[1..]| && a[1..][k].name == n;
        assert a[k + 1].name == n;
      }
      OnlyNamed(a[1..], out, names);
    }
  }

  // ---- the connection, and the reference

  datatype Op<!D> =
    | Begin
    | AddPoint
    | AddSessionPoint(id: nat)
    | BackToPoint(name: Name)
    | BackToBeginning
    | Query(q: D -> D)
    | Finish
    | Abandon

  datatype Reply<D> = Done | PointAdded(id: nat) | NoSuchPoint | Saw(contents: D)

  /** A connection: what waits, the number of the last point, and the server behind it. */
  datatype Client<D> = Client(pending: seq<Sql>, savepointEnum: nat, server: Server<D>)

  predicate StartWaits(pending: seq<Sql>) {
    pending != [] && pending[0].StartTransaction?
  }

  /** START can only wait at the head, when no transaction is open at the server. */
  ghost predicate QueueOk<D>(c: Client<D>) {
    && (forall i :: 0 < i < |c.pending| ==> c.pending[i].Savepoint?)
    && (StartWaits(c.pending) ==> c.server.trx.None?)
    && WellFormed(c.server)
  }

  function RollbackTo<D>(c: Client<D>, name: Name): (Client<D>, Reply<D>) {
    var at := Scan(c.pending, name);
    if at.Some? then (c.(pending := c.pending[..at.value]), Done)
    else if c.server.trx.None? then (c, NoSuchPoint)
    else
      var flushed := Flush(c.server, c.pending);
      (c.(pending := [], server := BackTo(flushed, name)), if HasPoint(flushed, name) then Done else NoSuchPoint)
  }

  function Lazily<D>(c: Client<D>, op: Op<D>): (Client<D>, Reply<D>) {
    match op
    case Begin => (Client([StartTransaction], 0, Committed(c.server)), Done)
    case AddPoint =>
      var id := c.savepointEnum + 1;
      (c.(pending := c.pending + [Savepoint(OfConn(id))], savepointEnum := id), PointAdded(id))
    case AddSessionPoint(id) => (c.(pending := c.pending + [Savepoint(OfSession(id))]), Done)
    case BackToPoint(name) => RollbackTo(c, name)
    case BackToBeginning => (c.(pending := [], server := Restarted(c.server)), Done)
    case Query(q) =>
      var flushed := Flush(c.server, c.pending);
      var contents := q(flushed.db);
      (c.(pending := [], server := flushed.(db := contents)), Saw(contents))
    case Finish => (c.(pending := [], server := Committed(c.server)), Done)
    case Abandon => (c.(pending := [], server := RolledBack(c.server)), Done)
  }

  /** The reference: every statement is sent at once. */
  function AtOnce<D>(c: Client<D>, op: Op<D>): (Client<D>, Reply<D>) {
    match op
    case Begin => (c.(server := Exec(c.server, StartTransaction), savepointEnum := 0), Done)
    case AddPoint =>
      var id := c.savepointEnum + 1;
      (c.(server := Exec(c.server, Savepoint(OfConn(id))), savepointEnum := id), PointAdded(id))
    case AddSessionPoint(id) => (c.(server := Exec(c.server, Savepoint(OfSession(id)))), Done)
    case BackToPoint(name) =>
      (c.(server := BackTo(c.server, name)), if HasPoint(c.server, name) then Done else NoSuchPoint)
    case BackToBeginning => (c.(server := Restarted(c.server)), Done)
    case Query(q) => (c.(server := c.server.(db := q(c.server.db))), Saw(q(c.server.db)))
    case Finish => (c.(server := Committed(c.server)), Done)
    case Abandon => (c.(server := RolledBack(c.server)), Done)
  }

  /** The points of a server, by name. */
  function NamesOf<D>(s: Server<D>): set<Name> {
    if s.trx.Some? then PointNames(s.trx.value.points) else {}
  }

  function Flushed<D>(c: Client<D>): Server<D> {
    Flush(c.server, c.pending)
  }

  /**
   The points that are stale after an operation: those it makes stale, and those that were, as long as one of the two
   has them.
   */
  function Stale<D>(c: Client<D>, e: Client<D>, stale: set<Name>, op: Op<D>): set<Name> {
    Suspects(c, stale, op) * (NamesOf(Flushed(Lazily(c, op).0)) + NamesOf(AtOnce(e, op).0.server))
  }

  function Suspects<D>(c: Client<D>, stale: set<Name>, op: Op<D>): set<Name> {
    match op
    case Begin => {}
    case AddPoint => stale - {OfConn(c.savepointEnum + 1)}
    case AddSessionPoint(id) => stale - {OfSession(id)}
    case BackToPoint(name) =>
      var at := Scan(c.pending, name);
      if at.Some? then stale + Forgotten(c.server, c.pending, at.value) else stale
    case BackToBeginning => {}
    case _ => stale
  }

  predicate InTrx<D>(c: Client<D>) {
    c.server.trx.Some? || StartWaits(c.pending)
  }

  /** The queue knows nothing of the point: it does not find it, and no transaction is open that could have it. */
  predicate Unseen<D>(c: Client<D>, name: Name) {
    Scan(c.pending, name).None? && c.server.trx.None?
  }

  /**
   What the queue asks of its user. Points are for transactions; a point is not rolled back to once
   more after it was forgotten (unless there is none any more); while START waits, a point is not behind one of
   the other kind, and the transaction is not rolled back to its beginning.
   */
  predicate Allowed<D>(c: Client<D>, e: Client<D>, stale: set<Name>, op: Op<D>) {
    match op
    case BackToPoint(name) =>
      if name in stale then
        Unseen(c, name) && !HasPoint(e.server, name)
      else
        && (Scan(c.pending, name).Some? ==> InTrx(c))
        && (Scan(c.pending, name).None? && StartWaits(c.pending) ==> Savepoint(name) !in c.pending)
    case BackToBeginning => !StartWaits(c.pending)
    case _ => true
  }

  ghost predicate StandsFor<D>(c: Client<D>, e: Client<D>, stale: set<Name>) {
    QueueOk(c) && Alike(Flushed(c), e.server, stale) && c.savepointEnum == e.savepointEnum
  }

  ghost predicate Agree<D>(c: Client<D>, e: Client<D>, stale: set<Name>) {
    StandsFor(c, e, stale) && stale <= NamesOf(Flushed(c)) + NamesOf(e.server)
  }

  /** A name that no point has makes no difference. */
  lemma OnlyThose<D>(v: Server<D>, e: Server<D>, stale: set<Name>)
    requires Alike(v, e, stale)
    ensures Alike(v, e, stale * (NamesOf(v) + NamesOf(e)))
  {
    if v.trx.Some? {
      hide Keep, PointNames, Distinct;
      var out := stale * (NamesOf(v) + NamesOf(e));
      OnlyNamed(v.trx.value.points, out, stale);
      OnlyNamed(e.trx.value.points, out, stale);
      assert stale + out == stale;
    }
  }

  /** One operation: the same reply, and the queue still stands for what the reference did. */
  lemma OneStep<D>(c: Client<D>, e: Client<D>, stale: set<Name>, op: Op<D>)
    requires Agree(c, e, stale) && Allowed(c, e, stale, op)
    ensures Agree(Lazily(c, op).0, AtOnce(e, op).0, Stale(c, e, stale, op))
    ensures Lazily(c, op).1 == AtOnce(e, op).1
  {
    SuspectsOnly(c, e, stale, op);
    hide Keep, Distinct, Find, Flush, Scan, Names, PointNames, NamesOf, Lazily, AtOnce, Suspects, Alike;
    OnlyThose(Flushed(Lazily(c, op).0), AtOnce(e, op).0.server, Suspects(c, stale, op));
  }

  lemma SuspectsOnly<D>(c: Client<D>, e: Client<D>, stale: set<Name>, op: Op<D>)
    requires StandsFor(c, e, stale) && Allowed(c, e, stale, op)
    ensures StandsFor(Lazily(c, op).0, AtOnce(e, op).0, Suspects(c, stale, op))
    ensures Lazily(c, op).1 == AtOnce(e, op).1
  {
    hide Keep, Distinct, Find, Flush, Scan, Names, PointNames;
    match op {
      case Begin => AfterEnd(c, e, stale, op);
      case AddPoint => OnePoint(c, e, stale, OfConn(c.savepointEnum + 1));
      case AddSessionPoint(id) => OnePoint(c, e, stale, OfSession(id));
      case BackToPoint(name) =>
        if name !in stale {
          OneRollback(c, e, stale, name);
        }
      case BackToBeginning => AfterEnd(c, e, stale, op);
      case Query(q) => NothingWaits(c.server, c.pending, q(Flush(c.server, c.pending).db));
      case Finish => AfterEnd(c, e, stale, op);
      case Abandon => AfterEnd(c, e, stale, op);
    }
  }

  lemma OnePoint<D>(c: Client<D>, e: Client<D>, stale: set<Name>, name: Name)
    requires StandsFor(c, e, stale)
    ensures StandsFor(c.(pending := c.pending + [Savepoint(name)]), e.(server := Exec(e.server, Savepoint(name))),
      stale - {name})
  {
    hide Keep, Distinct;
    FlushOne(c.server, c.pending, Savepoint(name));
    SavepointAlike(Flush(c.server, c.pending), e.server, stale, name);
  }

  lemma NothingWaits<D>(s: Server<D>, pending: seq<Sql>, db: D)
    requires WellFormed(s)
    ensures WellFormed(Flush(s, pending)) && Flush(Flush(s, pending).(db := db), []) == Flush(s, pending).(db := db)
  {
    FlushWellFormed(s, pending);
  }

  /** Operations that begin or end a transaction leave no points. */
  lemma AfterEnd<D>(c: Client<D>, e: Client<D>, stale: set<Name>, op: Op<D>)
    requires StandsFor(c, e, stale) && Allowed(c, e, stale, op)
    requires op.Begin? || op.BackToBeginning? || op.Finish? || op.Abandon?
    ensures StandsFor(Lazily(c, op).0, AtOnce(e, op).0, Suspects(c, stale, op))
  {
    QueueBase(c.server, c.pending);
    FlushOne(Committed(c.server), [], StartTransaction);
    assert [] + [StartTransaction] == [StartTransaction];
  }

  /** What the waiting statements leave alone. */
  lemma {:induction false} QueueBase<D>(s: Server<D>, pending: seq<Sql>)
    requires forall i :: 0 < i < |pending| ==> pending[i].Savepoint?
    requires StartWaits(pending) ==> s.trx.None?
    ensures var f := Flush(s, pending);
      && f.trx.Some? == (s.trx.Some? || StartWaits(pending))
      && (f.trx.Some? ==> f.trx.value.base == if s.trx.Some? then s.trx.value.base else s.db)
    decreases |pending|
  {
    if |pending| > 1 {
      QueueBase(s, pending[..|pending| - 1]);
    } else if |pending| == 1 {
      assert pending[..0] == [];
    }
  }

  lemma OneRollback<D>(c: Client<D>, e: Client<D>, stale: set<Name>, name: Name)
    requires StandsFor(c, e, stale) && name !in stale && Allowed(c, e, stale, BackToPoint(name))
    ensures StandsFor(RollbackTo(c, name).0, AtOnce(e, BackToPoint(name)).0, Suspects(c, stale, BackToPoint(name)))
    ensures RollbackTo(c, name).1 == AtOnce(e, BackToPoint(name)).1
  {
    var at := Scan(c.pending, name);
    QueueBase(c.server, c.pending);
    if at.Some? {
      QueueBase(c.server, c.pending[..at.value]);
      CutAlike(c.server, c.pending, e.server, stale, at.value);
    } else if c.server.trx.Some? {
      BackToAlike(Flush(c.server, c.pending), e.server, stale, name);
    } else {
      BackToAlike(Flush(c.server, c.pending), e.server, stale, name);
      OnlyWaiting(c.server, c.pending, name);
    }
  }

  /** With no transaction open at the server, its points can only be those that wait after START. */
  lemma {:induction false} OnlyWaiting<D>(s: Server<D>, pending: seq<Sql>, name: Name)
    requires s.trx.None? && WellFormed(s)
    requires forall i :: 0 < i < |pending| ==> pending[i].Savepoint?
    ensures HasPoint(Flush(s, pending), name) <==> StartWaits(pending) && Savepoint(name) in pending
    decreases |pending|
  {
    QueueBase(s, pending);
    if |pending| > 0 {
      var init, sql := pending[..|pending| - 1], pending[|pending| - 1];
      OnlyWaiting(s, init, name);
      assert pending == init + [sql];
      if sql.Savepoint? && Flush(s, init).trx.Some? {
        SavedHas(Flush(s, init), sql.name, name);
      }
    }
  }

  lemma SavedHas<D>(s: Server<D>, saved: Name, name: Name)
    requires s.trx.Some?
    ensures HasPoint(Exec(s, Savepoint(saved)), name) <==> saved == name || HasPoint(s, name)
  {
    var a, b := s.trx.value.points, Saved(s.trx.value.points, saved, s.db);
    KeepWithin(a, {saved});
    assert forall k :: 0 <= k < |b| - 1 ==> b[k] == Keep(a, {saved})[k];
    assert b[|b| - 1].name == saved;
    if saved != name && HasPoint(s, name) {
      var i := Find(a, name);
      KeptAround(a, {saved}, i);
      assert Keep(a, {saved})[|Keep(a[..i], {saved})|] == a[i];
      assert b[|Keep(a[..i], {saved})|] == a[i];
    }
  }

  /**
   Both have the point, with the same contents, though one of them is an older namesake: a difference can only show
   later.
   */
  predicate SameContents<D(==)>(c: Client<D>, e: Client<D>, name: Name) {
    && HasPoint(Flushed(c), name) && HasPoint(e.server, name)
    && BackTo(Flushed(c), name).db == BackTo(e.server, name).db
  }

  /** Going back to a stale point that one of the two has: the replies differ, or the contents. */
  lemma StaleDiffers<D>(c: Client<D>, e: Client<D>, stale: set<Name>, name: Name)
    requires Agree(c, e, stale) && name in stale && !Allowed(c, e, stale, BackToPoint(name))
    requires !SameContents(c, e, name)
    ensures var (c', reply) := RollbackTo(c, name);
      var (e', reply') := AtOnce(e, BackToPoint(name));
      reply != reply' || Flushed(c').db != e'.server.db
  {
    hide Keep, Distinct;
    HasNamed(Flushed(c), name);
    HasNamed(e.server, name);
    QueueBase(c.server, c.pending);
    var at := Scan(c.pending, name);
    if at.Some? {
      QueueBase(c.server, c.pending[..at.value]);
      CutContents(c.server, c.pending, at.value);
    }
  }

  lemma HasNamed<D>(s: Server<D>, name: Name)
    ensures name in NamesOf(s) <==> HasPoint(s, name)
  {
    if HasPoint(s, name) {
      assert s.trx.value.points[Find(s.trx.value.points, name)].name == name;
    }
  }

  /** The waiting point that is found has the contents of now. */
  lemma CutContents<D>(s: Server<D>, pending: seq<Sql>, i: nat)
    requires i < |pending| && pending[i].Savepoint? && WellFormed(s) && Flush(s, pending[..i]).trx.Some?
    requires forall j :: i < j < |pending| ==> pending[j].Savepoint? && pending[j].name != pending[i].name
    ensures HasPoint(Flush(s, pending), pending[i].name) && BackTo(Flush(s, pending), pending[i].name).db == s.db
  {
    hide Keep, Distinct;
    assert pending[..|pending|] == pending;
    var z := Suffix(s, pending, i, |pending|);
    FlushWellFormed(s, pending);
    var t, a := Flush(s, pending[..i]).trx.value, Flush(s, pending).trx.value.points;
    var k := |Keep(t.points, Names(pending[i..|pending|]))|;
    assert a[k] == Point(pending[i].name, s.db);
    OnePlace(a, k);
  }

  lemma OnePlace<D>(a: seq<Point<D>>, k: nat)
    requires Distinct(a) && k < |a|
    ensures Find(a, a[k].name) == k
  {
    var f := Find(a, a[k].name);
    assert k < f ==> a[..f][k] == a[k];
    DistinctPrefix(a, f);
  }

  /** The conditions are exact: what is not allowed gets another reply, or makes the two disagree at once. */
  lemma ExactlyWhenAllowed<D>(c: Client<D>, e: Client<D>, stale: set<Name>, op: Op<D>)
    requires Agree(c, e, stale)
    requires !(op.BackToPoint? && op.name in stale && SameContents(c, e, op.name))
    ensures Allowed(c, e, stale, op) <==>
      Lazily(c, op).1 == AtOnce(e, op).1 && Agree(Lazily(c, op).0, AtOnce(e, op).0, Stale(c, e, stale, op))
  {
    if Allowed(c, e, stale, op) {
      OneStep(c, e, stale, op);
    } else if op.BackToPoint? && op.name in stale {
      StaleDiffers(c, e, stale, op.name);
    } else {
      hide Keep, Distinct, Find;
      QueueBase(c.server, c.pending);
      if op.BackToPoint? && Scan(c.pending, op.name).None? {
        OnlyWaiting(c.server, c.pending, op.name);
        BackToAlike(Flush(c.server, c.pending), e.server, stale, op.name);
      }
    }
  }

  /** A forgotten point: the reference goes back to it as often as asked, the queue only once. */
  lemma ForgottenPoint<D>(s: Server<D>, name: Name)
    requires s.trx.Some? && !HasPoint(s, name)
    ensures var c := Client([Savepoint(name)], 0, s);
      var e := Client([], 0, Exec(s, Savepoint(name)));
      var op := BackToPoint(name);
      && Lazily(c, op).1 == Done && Lazily(Lazily(c, op).0, op).1 == NoSuchPoint
      && AtOnce(e, op).1 == Done && AtOnce(AtOnce(e, op).0, op).1 == Done
  {
    hide Keep;
    BackToSaved(s, name);
    assert [Savepoint(name)][..0] == [];
    assert Flush(s, []) == s;
  }

  /**
   A forgotten point that has an older namesake (the session numbers its points anew after a
   rollback): the second rollback restores the older contents, and what was done since is lost.
   */
  lemma OlderNamesake<D>(s: Server<D>, name: Name)
    requires HasPoint(s, name)
    ensures var c := Client([Savepoint(name)], 0, s);
      var e := Client([], 0, Exec(s, Savepoint(name)));
      var op := BackToPoint(name);
      var (again, reply) := Lazily(Lazily(c, op).0, op);
      && reply == Done && again.server.db == s.trx.value.points[Find(s.trx.value.points, name)].db
      && AtOnce(AtOnce(e, op).0, op).0.server.db == s.db
  {
    hide Keep;
    BackToSaved(s, name);
    assert [Savepoint(name)][..0] == [];
    assert Flush(s, []) == s;
  }

  lemma BackToSaved<D>(s: Server<D>, name: Name)
    requires s.trx.Some?
    ensures var t := Exec(s, Savepoint(name)); HasPoint(t, name) && BackTo(t, name) == t
  {
    var points := Saved(s.trx.value.points, name, s.db);
    assert points[|points| - 1].name == name;
    assert points[..|points|] == points;
  }

  // ---- runs

  function Replies<D>(c: Client<D>, ops: seq<Op<D>>): seq<Reply<D>>
    decreases |ops|
  {
    if ops == [] then []
    else var (d, reply) := Lazily(c, ops[0]); [reply] + Replies(d, ops[1..])
  }

  function RepliesAtOnce<D>(e: Client<D>, ops: seq<Op<D>>): seq<Reply<D>>
    decreases |ops|
  {
    if ops == [] then []
    else var (d, reply) := AtOnce(e, ops[0]); [reply] + RepliesAtOnce(d, ops[1..])
  }

  predicate AllAllowed<D>(c: Client<D>, e: Client<D>, stale: set<Name>, ops: seq<Op<D>>)
    decreases |ops|
  {
    ops != [] ==>
      && Allowed(c, e, stale, ops[0])
      && AllAllowed(Lazily(c, ops[0]).0, AtOnce(e, ops[0]).0, Stale(c, e, stale, ops[0]), ops[1..])
  }

  lemma {:induction false} SameReplies<D>(c: Client<D>, e: Client<D>, stale: set<Name>, ops: seq<Op<D>>)
    requires Agree(c, e, stale) && AllAllowed(c, e, stale, ops)
    ensures Replies(c, ops) == RepliesAtOnce(e, ops)
    decreases |ops|
  {
    if ops != [] {
      OneStep(c, e, stale, ops[0]);
      SameReplies(Lazily(c, ops[0]).0, AtOnce(e, ops[0]).0, Stale(c, e, stale, ops[0]), ops[1..]);
    }
  }

  /** The queue refines the reference: every query sees the same contents, every rollback has the same outcome. */
  lemma LazyRefinesEager<D>(db: D, ops: seq<Op<D>>)
    requires var c := Client([], 0, Server(db, None));
      AllAllowed(c, c, {}, ops)
    ensures var c := Client([], 0, Server(db, None));
      Replies(c, ops) == RepliesAtOnce(c, ops)
  {
    var c := Client([], 0, Server(db, None));
    SameReplies(c, c, {}, ops);
  }

  // ---- the connection as the program has it

  /** `server` is the other end: what it holds after the statements that were sent. */
  class MyConn<!D> {
    var pendingTrxSql: seq<Sql>
    var savepointEnum: nat
    var server: Server<D>

    function Now(): Client<D>
      reads this
    {
      Client(pendingTrxSql, savepointEnum, server)
    }

    constructor (db: D)
      ensures Now() == Client([], 0, Server(db, None))
    {
      pendingTrxSql, savepointEnum, server := [], 0, Server(db, None);
    }

    method StartTrx()
      modifies this
      ensures Now() == Lazily(old(Now()), Begin).0
    {
      if server.trx.Some? {
        Commit();
      }
      pendingTrxSql := [StartTransaction] + pendingTrxSql[..0];
      savepointEnum := 0;
    }

    method AddSavepoint() returns (id: nat)
      modifies this
      ensures Lazily(old(Now()), AddPoint) == (Now(), PointAdded(id))
    {
      savepointEnum := savepointEnum + 1;
      id := savepointEnum;
      pendingTrxSql := pendingTrxSql + [Savepoint(OfConn(id))];
    }

    method SessionSavepoint(id: nat)
      modifies this
      ensures Now() == Lazily(old(Now()), AddSessionPoint(id)).0
    {
      pendingTrxSql := pendingTrxSql + [Savepoint(OfSession(id))];
    }

    /** The waiting statements go to the server, in order. */
    method SendPending()
      modifies this
      ensures server == Flush(old(server), old(pendingTrxSql)) && pendingTrxSql == []
      ensures savepointEnum == old(savepointEnum)
    {
      var i := 0;
      while i < |pendingTrxSql|
        invariant i <= |pendingTrxSql| && pendingTrxSql == old(pendingTrxSql) && savepointEnum == old(savepointEnum)
        invariant server == Flush(old(server), pendingTrxSql[..i])
      {
        assert pendingTrxSql[..i + 1][..i] == pendingTrxSql[..i];
        server := Exec(server, pendingTrxSql[i]);
        i := i + 1;
      }
      assert pendingTrxSql[..i] == pendingTrxSql;
      pendingTrxSql := [];
    }

    method DoQuery(q: D -> D) returns (contents: D)
      modifies this
      ensures Lazily(old(Now()), Query(q)) == (Now(), Saw(contents))
    {
      SendPending();
      contents := q(server.db);
      server := server.(db := contents);
    }

    /** `rollback()` to a point: true if there was one. */
    method RollbackToPoint(name: Name) returns (found: bool)
      modifies this
      ensures Lazily(old(Now()), BackToPoint(name)) == (Now(), if found then Done else NoSuchPoint)
    {
      var pending := pendingTrxSql;
      var i := |pending|;
      assert pending[..i] == pending;
      while i > 0
        invariant 0 <= i <= |pending| && Now() == old(Now())
        invariant Scan(pending, name) == Scan(pending[..i], name)
      {
        i := i - 1;
        assert pending[..i + 1][..i] == pending[..i];
        var sql := pending[i];
        if sql.StartTransaction? || !SameKind(sql.name, name) {
          break;
        }
        if sql.name == name {
          pendingTrxSql := pending[..i];
          return true;
        }
      }
      if server.trx.None? {
        return false;
      }
      SendPending();
      found := HasPoint(server, name);
      server := BackTo(server, name);
    }

    /** `rollback()` of the whole transaction; with `chain`, to its beginning. */
    method RollbackAll(chain: bool)
      modifies this
      ensures Now() == Lazily(old(Now()), if chain then BackToBeginning else Abandon).0
    {
      if server.trx.Some? {
        server := if chain then Restarted(server) else RolledBack(server);
      }
      pendingTrxSql := [];
    }

    method Commit()
      modifies this
      ensures Now() == Lazily(old(Now()), Finish).0
    {
      if server.trx.Some? {
        server := Committed(server);
      }
      pendingTrxSql := [];
    }
  }
}
