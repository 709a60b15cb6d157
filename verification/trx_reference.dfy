/**
 What the reference of `TrxQueue` promises over any run of a transaction: how each of its ends leaves the contents, and
 what rolling back to a point brings back.
 */
module TrxReference {
  import opened Results
  import opened TrxQueue

  function RunAtOnce<D>(e: Client<D>, ops: seq<Op<D>>): Client<D>
    decreases |ops|
  {
    if ops == [] then e else RunAtOnce(AtOnce(e, ops[0]).0, ops[1..])
  }

  /** Neither begins a transaction nor ends one. */
  predicate Inside<D>(op: Op<D>) {
    !op.Begin? && !op.Finish? && !op.Abandon?
  }

  predicate AllInside<D>(ops: seq<Op<D>>) {
    forall i :: 0 <= i < |ops| ==> Inside(ops[i])
  }

  lemma {:induction false} StaysOpen<D>(e: Client<D>, ops: seq<Op<D>>)
    requires e.server.trx.Some? && AllInside(ops)
    ensures var after := RunAtOnce(e, ops);
      after.server.trx.Some? && after.server.trx.value.base == e.server.trx.value.base
    decreases |ops|
  {
    if ops != [] {
      assert Inside(ops[0]);
      StaysOpen(AtOnce(e, ops[0]).0, ops[1..]);
    }
  }

  /**
   Whatever happens in a transaction: giving it up brings back the contents from before it, as does going back to its
   beginning, where it stays open; and committing keeps the contents as they are now.
   */
  lemma WholeTransaction<D>(e: Client<D>, ops: seq<Op<D>>)
    requires AllInside(ops)
    ensures var after := RunAtOnce(AtOnce(e, Begin).0, ops);
      && AtOnce(after, Abandon).0.server == Server(e.server.db, None)
      && AtOnce(after, Finish).0.server == Server(after.server.db, None)
      && var again := AtOnce(after, BackToBeginning).0;
         again.server.db == e.server.db && again.server.trx.Some?
         && AtOnce(again, Abandon).0.server == Server(e.server.db, None)
  {
    StaysOpen(AtOnce(e, Begin).0, ops);
  }

  /** The points of this name have these contents. */
  predicate Remembers<D(==)>(s: Server<D>, name: Name, db: D) {
    s.trx.Some? && forall k :: 0 <= k < |s.trx.value.points| ==>
      (s.trx.value.points[k].name == name ==> s.trx.value.points[k].db == db)
  }

  /** The point is not made again: numbers of the connection only go up. */
  predicate NotAgain<D(==)>(e: Client<D>, ops: seq<Op<D>>, name: Name) {
    match name
    case OfConn(id) => id <= e.savepointEnum
    case OfSession(id) => forall i :: 0 <= i < |ops| ==> !(ops[i].AddSessionPoint? && ops[i].id == id)
  }

  lemma RemembersStep<D>(e: Client<D>, op: Op<D>, name: Name, db: D)
    requires Remembers(e.server, name, db) && Inside(op) && NotAgain(e, [op], name)
    ensures var d := AtOnce(e, op).0; Remembers(d.server, name, db) && d.savepointEnum >= e.savepointEnum
  {
    var points := e.server.trx.value.points;
    if op.AddPoint? || op.AddSessionPoint? {
      var added := if op.AddPoint? then OfConn(e.savepointEnum + 1) else OfSession(op.id);
      assert added != name by { assert [op][0] == op; }
      KeepWithin(points, {added});
    }
  }

  lemma {:induction false} RemembersOn<D>(e: Client<D>, ops: seq<Op<D>>, name: Name, db: D)
    requires Remembers(e.server, name, db) && AllInside(ops) && NotAgain(e, ops, name)
    ensures Remembers(RunAtOnce(e, ops).server, name, db)
    decreases |ops|
  {
    if ops != [] {
      assert Inside(ops[0]);
      RemembersStep(e, ops[0], name, db);
      RemembersOn(AtOnce(e, ops[0]).0, ops[1..], name, db);
    }
  }

  predicate Adds<D>(e: Client<D>, op: Op<D>, name: Name) {
    (op.AddPoint? && name == OfConn(e.savepointEnum + 1)) || (op.AddSessionPoint? && name == OfSession(op.id))
  }

  lemma AddedRemembers<D>(e: Client<D>, op: Op<D>, name: Name)
    requires e.server.trx.Some? && Adds(e, op, name)
    ensures var d := AtOnce(e, op).0; Remembers(d.server, name, e.server.db) && HasPoint(d.server, name)
  {
    KeepWithin(e.server.trx.value.points, {name});
    var points := Saved(e.server.trx.value.points, name, e.server.db);
    assert points[|points| - 1].name == name;
  }

  /**
   Rolling back to a point, if there still is one, brings back the contents from when it was made, whatever happened
   since; and the transaction goes on.
   */
  lemma PointRestored<D>(e: Client<D>, op: Op<D>, name: Name, ops: seq<Op<D>>)
    requires e.server.trx.Some? && Adds(e, op, name) && AllInside(ops)
    requires name.OfSession? ==> NotAgain(e, ops, name)
    ensures var after := RunAtOnce(AtOnce(e, op).0, ops);
      var (back, reply) := AtOnce(after, BackToPoint(name));
      && (reply == Done <==> HasPoint(after.server, name))
      && (reply == Done ==> back.server.db == e.server.db && HasPoint(back.server, name))
      && (reply != Done ==> back == after)
      && back.server.trx.Some? && back.server.trx.value.base == e.server.trx.value.base
  {
    AddedRemembers(e, op, name);
    RemembersOn(AtOnce(e, op).0, ops, name, e.server.db);
    StaysOpen(AtOnce(e, op).0, ops);
    var after := RunAtOnce(AtOnce(e, op).0, ops);
    if HasPoint(after.server, name) {
      var points := after.server.trx.value.points;
      assert points[..Find(points, name) + 1][Find(points, name)].name == name;
    }
  }

  /** Goes back nowhere. */
  predicate Forward<D>(op: Op<D>) {
    op.Query? || op.AddPoint? || op.AddSessionPoint?
  }

  lemma {:induction false} PointStays<D>(e: Client<D>, ops: seq<Op<D>>, name: Name)
    requires HasPoint(e.server, name) && forall i :: 0 <= i < |ops| ==> Forward(ops[i])
    ensures HasPoint(RunAtOnce(e, ops).server, name)
    decreases |ops|
  {
    if ops != [] {
      assert Forward(ops[0]);
      PointStaysOne(e, ops[0], name);
      PointStays(AtOnce(e, ops[0]).0, ops[1..], name);
    }
  }

  lemma PointStaysOne<D>(e: Client<D>, op: Op<D>, name: Name)
    requires HasPoint(e.server, name) && Forward(op)
    ensures HasPoint(AtOnce(e, op).0.server, name)
  {
    if !op.Query? {
      var points := e.server.trx.value.points;
      var added := if op.AddPoint? then OfConn(e.savepointEnum + 1) else OfSession(op.id);
      var saved := Saved(points, added, e.server.db);
      if added == name {
        assert saved[|saved| - 1].name == name;
      } else {
        var k := KeepHas(points, {added}, Find(points, name));
        assert saved[k].name == name;
      }
    }
  }

  lemma {:induction false} KeepHas<D>(points: seq<Point<D>>, names: set<Name>, i: nat) returns (k: nat)
    requires i < |points| && points[i].name !in names
    ensures k < |Keep(points, names)| && Keep(points, names)[k] == points[i]
    decreases |points|
  {
    if i == 0 {
      k := 0;
    } else {
      k := KeepHas(points[1..], names, i - 1);
      k := if points[0].name in names then k else k + 1;
    }
  }
}
