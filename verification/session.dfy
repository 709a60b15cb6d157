/**
 `MySession`: the transaction that spans its connections. A call runs up to the place where it
 waits for its connections; `Answer` lets one connection go on, and `Turn` the session itself.
 */
module Session {
  import opened Results
  import opened TwoPhase

  /** What `commit()` is for: a call of its own, or the first part of `startTrx()`. */
  datatype Purpose = Stop | StartAgain(xa: bool)

  datatype Phase =
    | Quiet
    | Preparing(purpose: Purpose)
    | RollingBack(failedVote: bool, fails: bool)
    | Committing(purpose: Purpose)

  /** What can happen to a session: calls, answers to its connections, and its own continuation. */
  datatype Event =
    | Opens(detach: bool)
    | Starts(allowed: bool, xa: bool)
    | Queries(conn: nat, connects: bool, number: nat, fromPool: bool, toStart: Answer, toQuery: Answer)
    | Commits(allowed: bool)
    | RollsBack
    | Answers(conn: nat, answer: Answer)
    | Turns

  /** What the log keeps: its order, and nothing about what has not come up yet. */
  ghost predicate LogOk(conns: seq<Conn>, log: seq<Entry>, x: nat) {
    && Safe(log)
    && (forall i: nat, y: nat :: y > x || i >= |conns| ==> Track(log, i, y) == BLANK)
    && (forall i: nat, y: nat :: !Track(log, i, y).stage.OutOfOrder?)
    && (forall i, y: nat :: 0 <= i < |conns| && y in conns[i].committed ==> y <= x)
  }

  ghost predicate OkAt(conns: seq<Conn>, log: seq<Entry>, x: nat, i: nat, act: Act)
    requires i < |conns|
  {
    ConnOk(conns[i], Track(log, i, x), x, act)
  }

  ghost predicate AllOkAt(conns: seq<Conn>, log: seq<Entry>, x: nat, from: nat, to: nat, act: Act)
    requires from <= to <= |conns|
  {
    forall j: nat :: from <= j < to ==> OkAt(conns, log, x, j, act)
  }

  /** All connections are done with what the session asked of them. */
  predicate AllSettled(conns: seq<Conn>) {
    forall i :: 0 <= i < |conns| ==> conns[i].task.Settled?
  }

  predicate AllResolved(conns: seq<Conn>, from: nat)
    requires from <= |conns|
  {
    forall i :: from <= i < |conns| ==> conns[i].task == Settled(true)
  }

  lemma Undecided(conns: seq<Conn>, log: seq<Entry>, x: nat, k: nat)
    requires LogOk(conns, log, x) && k <= |conns|
    requires AllOkAt(conns, log, x, 0, k, Act.Voting(true)) && AllOkAt(conns, log, x, k, |conns|, Act.Quietly(true))
    ensures forall j: nat :: !Track(log, j, x).decided
  {
    hide Safe, Track;
    forall j: nat
      ensures !Track(log, j, x).decided
    {
      if j < k {
        assert OkAt(conns, log, x, j, Act.Voting(true));
      } else if j < |conns| {
        assert OkAt(conns, log, x, j, Act.Quietly(true));
      }
    }
  }

  lemma Unanimous(conns: seq<Conn>, log: seq<Entry>, x: nat, k: nat)
    requires LogOk(conns, log, x) && k <= |conns|
    requires AllOkAt(conns, log, x, 0, k, Act.Deciding(true)) && AllOkAt(conns, log, x, k, |conns|, Act.Voting(true))
    requires AllResolved(conns, k)
    ensures forall j: nat :: Track(log, j, x).asked ==> Track(log, j, x).granted
  {
    hide Safe, Track;
    forall j: nat
      ensures Track(log, j, x).asked ==> Track(log, j, x).granted
    {
      if j < k {
        assert OkAt(conns, log, x, j, Act.Deciding(true));
      } else if j < |conns| {
        assert OkAt(conns, log, x, j, Act.Voting(true));
      }
    }
  }

  /** The connection `i` went on, the others are as they were. */
  ghost predicate Moved(conns: seq<Conn>, log: seq<Entry>, conns0: seq<Conn>, log0: seq<Entry>, x: nat, i: nat) {
    && i < |conns| == |conns0|
    && (forall j: nat :: j < |conns| && j != i ==> conns[j] == conns0[j])
    && (forall j: nat :: j != i ==> Track(log, j, x) == Track(log0, j, x))
  }

  lemma OneMore(conns: seq<Conn>, log: seq<Entry>, conns0: seq<Conn>, log0: seq<Entry>, x: nat, i: nat, before: Act,
      after: Act)
    requires Moved(conns, log, conns0, log0, x, i)
    requires AllOkAt(conns0, log0, x, 0, i, after) && AllOkAt(conns0, log0, x, i + 1, |conns|, before)
    requires OkAt(conns, log, x, i, after)
    ensures AllOkAt(conns, log, x, 0, i + 1, after) && AllOkAt(conns, log, x, i + 1, |conns|, before)
  {
    hide ConnOk, Track;
    forall j: nat | j < i
      ensures OkAt(conns, log, x, j, after)
    {
      assert OkAt(conns0, log0, x, j, after);
    }
    forall j: nat | i < j < |conns|
      ensures OkAt(conns, log, x, j, before)
    {
      assert OkAt(conns0, log0, x, j, before);
    }
  }

  lemma SafeExtended(log: seq<Entry>, i: nat, on: nat, sent: seq<Stmt>, x: nat, act: Act, failed: Option<Stmt>)
    requires Safe(log) && Fitting(sent, Track(log, i, x), on, x, act, failed)
    requires failed.Some? ==> log != [] && log[|log| - 1] == Got(i, failed.value, false)
    requires act == Act.Voting(true) ==> forall j: nat :: !Track(log, j, x).decided
    requires act == Act.Deciding(true) ==> forall j: nat :: Track(log, j, x).asked ==> Track(log, j, x).granted
    ensures Safe(Extended(log, i, on, RoundOf(act), sent))
  {
    hide Track, Safe;
    if |sent| >= 1 {
      var e := Sent(i, on, RoundOf(act), sent[0]);
      FitsFirst(log, i, on, sent, x, act, failed);
      SafeOne(log, e);
      if |sent| == 2 {
        FitsSecond(log, i, on, sent, x, act, failed);
        SafeOne(log + [e], Sent(i, on, RoundOf(act), sent[1]));
      }
    }
  }

  /** No more than two statements, and about no other transaction. */
  lemma FittingIsNarrow(sent: seq<Stmt>, b: Ballot, on: nat, x: nat, act: Act, failed: Option<Stmt>)
    requires Fitting(sent, b, on, x, act, failed)
    ensures |sent| <= 2 && forall y: nat, o: Ballot :: y != x ==> MarkAll(o, on, sent, y) == o
  {
    hide Mark;
  }

  lemma SpokenGoes(log: seq<Entry>, conns: seq<Conn>, n: nat, r: Round)
    requires n < |conns|
    ensures var (c, sent) := Began(conns[n], r);
      Spoken(log, conns, n + 1, r)
        == Extended(Spoken(log, conns, n, r), n, conns[n].connectionId, Some(r), sent)
    ensures Began(conns[n], r).0.connectionId == conns[n].connectionId
  {
    hide Extended, Began;
    BeganNumber(conns[n], r);
  }

  lemma BeganNumber(c: Conn, r: Round)
    ensures Began(c, r).0.connectionId == c.connectionId
  {
  }

  lemma SpokenNone(log: seq<Entry>, conns: seq<Conn>, r: Round)
    ensures Spoken(log, conns, 0, r) == log
  {
  }

  lemma FitsFirst(log: seq<Entry>, i: nat, on: nat, sent: seq<Stmt>, x: nat, act: Act, failed: Option<Stmt>)
    requires Fitting(sent, Track(log, i, x), on, x, act, failed) && sent != []
    requires failed.Some? ==> log != [] && log[|log| - 1] == Got(i, failed.value, false)
    requires act == Act.Voting(true) ==> forall j: nat :: !Track(log, j, x).decided
    requires act == Act.Deciding(true) ==> forall j: nat :: Track(log, j, x).asked ==> Track(log, j, x).granted
    ensures InTurn(log, Sent(i, on, RoundOf(act), sent[0]))
  {
    hide Track;
  }

  lemma FitsSecond(log: seq<Entry>, i: nat, on: nat, sent: seq<Stmt>, x: nat, act: Act, failed: Option<Stmt>)
    requires Fitting(sent, Track(log, i, x), on, x, act, failed) && |sent| == 2
    requires act == Act.Voting(true) ==> forall j: nat :: !Track(log, j, x).decided
    requires act == Act.Deciding(true) ==> forall j: nat :: Track(log, j, x).asked ==> Track(log, j, x).granted
    ensures var e := Sent(i, on, RoundOf(act), sent[0]); InTurn(log + [e], Sent(i, on, RoundOf(act), sent[1]))
  {
    hide Track;
    TrackOne(log, Sent(i, on, RoundOf(act), sent[0]));
  }

  /** What is at stake is the ordinary transaction that the server had open. */
  predicate Staked(before: seq<Conn>, after: seq<Conn>) {
    && |after| == |before|
    && forall i :: 0 <= i < |after| ==> (after[i].atStake <==> before[i].server == Trx.Open(PLAIN))
  }

  lemma StakesTaken(before: seq<Conn>, after: seq<Conn>, r: Round)
    requires r != ToPrepare && |after| == |before|
    requires forall i :: 0 <= i < |after| ==> after[i] == Began(before[i], r).0
    ensures Staked(before, after)
  {
    hide Began;
    forall i | 0 <= i < |after|
      ensures after[i].atStake <==> before[i].server == Trx.Open(PLAIN)
    {
      StakeTaken(before[i], r);
    }
  }

  // ---- what a query does to its connection

  function Connected(c: Conn, number: nat): Conn {
    c.(connectionId := number, connected := true, broken := false, inTrans := false, server := NoTrx)
  }

  function StartOf(c: Conn): Stmt {
    if c.curXaId == 0 then PlainStart else Stmt.Start(IdOf(c))
  }

  /**
   START is sent and answered. The ID gets the number of the connection, if it has none yet. A connection that
   breaks when it was just taken from the pool is given up: START waits on, under the ID that it has now.
   */
  function Started(c: Conn, a: Answer, fromPool: bool): Conn {
    var d := Answered(c, StartOf(c), a).(owner := if c.curXaId > 0 then Some(IdOf(c).owner) else c.owner);
    if a.Success? then d.(pendingStart := false)
    else if a.Lost? && fromPool then d.(connected := false, broken := false, inTrans := false)
    else d
  }

  function Queried(c: Conn, a: Answer): Conn {
    match a
    case Success => c
    case Failure(undone, _) => if undone then c.(server := NoTrx, ordinary := Broken(c.ordinary)) else c
    case Lost(_) => c.(server := Orphaned(c.server), ordinary := Broken(c.ordinary), broken := true)
  }

  /** The connection when it has a server behind it: the one it had, or a new one. */
  function Reached(c: Conn, connects: bool, number: nat): Conn {
    if !c.connected && connects then Connected(c, number) else c
  }

  /** START is sent: it waits, the connection works, and the server can answer so. */
  predicate SendsStart(c: Conn, toStart: Answer) {
    c.connected && !c.broken && c.pendingStart && Possible(c.server, StartOf(c), toStart)
  }

  function StartLog(i: nat, c: Conn, a: Answer): seq<Entry> {
    [Sent(i, c.connectionId, None, StartOf(c)), Got(i, StartOf(c), a.Success?)]
  }

  /** What a query makes of its connection. */
  function AfterQuery(c: Conn, connects: bool, number: nat, fromPool: bool, toStart: Answer, toQuery: Answer): Conn {
    var r := Reached(c, connects, number);
    var d := if SendsStart(r, toStart) then Started(r, toStart, fromPool) else r;
    Asks(d, toQuery)
  }

  /** The query itself, if the connection works and nothing waits any more. */
  function Asks(c: Conn, a: Answer): Conn {
    if c.connected && !c.broken && !c.pendingStart then Queried(c, a) else c
  }

  /** The first query of a transaction: START goes out before it, and it runs in the transaction of the session. */
  lemma FirstQuery(c: Conn, number: nat, fromPool: bool)
    requires c.pendingStart && OrdinaryOk(c) && (c.connected ==> c.server == NoTrx && !c.broken)
    ensures var r := Reached(c, true, number);
      var d := AfterQuery(c, true, number, fromPool, Success, Success);
      && SendsStart(r, Success) && d.connected && !d.pendingStart && d.inTrans
      && d.server == Trx.Open(IdOf(d)) && (d.curXaId == c.curXaId) && (d.ordinary == Running <==> c.curXaId == 0)
      && (c.curXaId > 0 && c.owner.None? ==> d.owner == Some(d.connectionId))
      && (c.curXaId > 0 && c.owner.Some? ==> d.owner == c.owner)
  {
  }

  lemma ReachedFits(c: Conn, b: Ballot, x: nat, live: bool, connects: bool, number: nat)
    requires ConnOk(c, b, x, Act.Quietly(live))
    ensures var d := Reached(c, connects, number);
      ConnOk(d, b, x, Act.Quietly(live)) && d.committed == c.committed
  {
  }

  lemma StartFits(c: Conn, b: Ballot, x: nat, live: bool, a: Answer, fromPool: bool)
    requires ConnOk(c, b, x, Act.Quietly(live)) && (live ==> x > 0) && SendsStart(c, a)
    ensures Kept(c, b, Started(c, a, fromPool), [StartOf(c)], x, Act.Quietly(live), None)
    ensures StartOf(c).PlainStart? || (StartOf(c).Start? && StartOf(c).id.x == x)
    ensures Started(c, a, fromPool).committed == c.committed
  {
  }

  lemma AsksFits(c: Conn, b: Ballot, x: nat, live: bool, a: Answer)
    requires ConnOk(c, b, x, Act.Quietly(live))
    ensures ConnOk(Asks(c, a), b, x, Act.Quietly(live)) && Asks(c, a).committed == c.committed
  {
  }

  lemma NothingSent(b: Ballot, on: nat, x: nat, act: Act)
    ensures MarkAll(b, on, [], x) == b && Fitting([], b, on, x, act, None)
  {
  }

  lemma InOrder(c: Conn, b: Ballot, x: nat, act: Act)
    requires ConnOk(c, b, x, act)
    ensures !b.stage.OutOfOrder?
  {
  }

  class Session {
    var conns: seq<Conn>
    var trxOptions: Option<nat>
    var lastXa: nat
    var phase: Phase
    /** How the last call ended; nothing while it runs. */
    var outcome: Option<bool>
    ghost var log: seq<Entry>
    ghost var live: bool

    ghost function ActOf(): Act
      reads this`phase, this`live
    {
      match phase
      case Quiet => Act.Quietly(live)
      case Preparing(_) => Act.Voting(live)
      case RollingBack(failedVote, _) => Act.Undoing(failedVote)
      case Committing(_) => Act.Deciding(live)
    }

    ghost predicate Valid()
      reads this
    {
      && LogOk(conns, log, lastXa)
      && AllOkAt(conns, log, lastXa, 0, |conns|, ActOf())
      && (trxOptions.Some? ==>
           phase.Quiet? && (if trxOptions.value > 0 then live && trxOptions.value == lastXa else !live))
      && (live ==> lastXa > 0)
      && (phase.RollingBack? ==> !live)
    }

    constructor ()
      ensures Valid() && conns == [] && log == [] && phase == Quiet && lastXa == 0
    {
      conns, trxOptions, lastXa, phase, outcome := [], None, 0, Quiet, None;
      log, live := [], false;
    }

    /** The connection `i` becomes `c`, and sends `sent`. */
    method Go(i: nat, c: Conn, sent: seq<Stmt>, ghost act: Act, ghost failed: Option<Stmt>)
      requires LogOk(conns, log, lastXa) && i < |conns|
      requires Fitting(sent, Track(log, i, lastXa), c.connectionId, lastXa, act, failed)
      requires failed.Some? ==> log != [] && log[|log| - 1] == Got(i, failed.value, false)
      requires act == Act.Voting(true) ==> forall j: nat :: !Track(log, j, lastXa).decided
      requires act == Act.Deciding(true) ==> forall j: nat :: Track(log, j, lastXa).asked ==>
        Track(log, j, lastXa).granted
      requires ConnOk(c, MarkAll(Track(log, i, lastXa), c.connectionId, sent, lastXa), lastXa, act)
      requires c.committed <= conns[i].committed + {lastXa}
      modifies this`conns, this`log
      ensures log == Extended(old(log), i, c.connectionId, RoundOf(act), sent)
      ensures LogOk(conns, log, lastXa) && conns == old(conns)[i := c] && OkAt(conns, log, lastXa, i, act)
      ensures Track(log, i, lastXa) == MarkAll(old(Track(log, i, lastXa)), c.connectionId, sent, lastXa)
      ensures Moved(conns, log, old(conns), old(log), lastXa, i)
    {
      hide ConnOk, Safe, Fitting, Extended, MarkAll;
      FittingIsNarrow(sent, Track(log, i, lastXa), c.connectionId, lastXa, act, failed);
      TrackExtended(log, i, c.connectionId, RoundOf(act), sent);
      SafeExtended(log, i, c.connectionId, sent, lastXa, act, failed);
      InOrder(c, MarkAll(Track(log, i, lastXa), c.connectionId, sent, lastXa), lastXa, act);
      conns := conns[i := c];
      log := Extended(log, i, c.connectionId, RoundOf(act), sent);
    }

    /** The answer to the statement `s` arrives on the connection `i`. */
    ghost method Hear(i: nat, s: Stmt, ok: bool)
      requires LogOk(conns, log, lastXa) && i < |conns| && (Plain(s) || s.id.x == lastXa)
      modifies this`log
      ensures LogOk(conns, log, lastXa) && log == old(log) + [Got(i, s, ok)]
      ensures forall j: nat :: j != i ==> Track(log, j, lastXa) == old(Track(log, j, lastXa))
      ensures var e := Got(i, s, ok);
        var b := old(Track(log, i, lastXa));
        var n := Track(log, i, lastXa);
        && n == (if Concerns(e, i, lastXa) then Note(b, e) else b)
        && n.asked == b.asked && n.decided == b.decided && (b.granted ==> n.granted)
    {
      var e := Got(i, s, ok);
      TrackOne(log, e);
      SafeOne(log, e);
      log := log + [e];
    }

    /** No COMMIT was sent while the session votes; when it decides, every PREPARE was granted. */
    lemma Turnout()
      requires Valid()
      ensures ActOf() == Act.Voting(true) ==> forall j: nat :: !Track(log, j, lastXa).decided
      ensures ActOf() == Act.Deciding(true) ==> forall j: nat :: Track(log, j, lastXa).asked ==>
        Track(log, j, lastXa).granted
    {
      forall j: nat
        ensures ActOf() == Act.Voting(true) ==> !Track(log, j, lastXa).decided
        ensures ActOf() == Act.Deciding(true) ==> Track(log, j, lastXa).asked ==> Track(log, j, lastXa).granted
      {
        if j < |conns| {
          assert OkAt(conns, log, lastXa, j, ActOf());
        } else {
          assert Track(log, j, lastXa) == BLANK;
        }
      }
    }

    lemma Resumes(i: nat, a: Answer)
      requires Valid() && i < |conns| && Waiting(conns[i].task)
      requires Possible(conns[i].server, Awaited(conns[i]), a)
      ensures Resumed(conns[i], Track(log, i, lastXa), lastXa, ActOf(), a)
      ensures Plain(Awaited(conns[i])) || Awaited(conns[i]).id.x == lastXa
    {
      hide Track, Safe, Resumed;
      var c, b := conns[i], Track(log, i, lastXa);
      assert OkAt(conns, log, lastXa, i, ActOf());
      match phase {
        case Quiet =>
        case Preparing(_) => VotingResumes(c, b, lastXa, live, a);
        case RollingBack(failedVote, _) => UndoingResumes(c, b, lastXa, failedVote, a);
        case Committing(_) => DecidingResumes(c, b, lastXa, live, a);
      }
    }

    /** The connection `i` is answered, and goes on. */
    method Answer(i: nat, a: Answer)
      requires Valid() && i < |conns| && Waiting(conns[i].task)
      requires Possible(conns[i].server, Awaited(conns[i]), a)
      modifies this`conns, this`log
      ensures Valid()
      ensures var (c, sent) := Resume(old(conns[i]), a);
        && conns == old(conns)[i := c]
        && log == Extended(old(log + [Got(i, Awaited(conns[i]), a.Success?)]), i, c.connectionId, old(RoundOf(ActOf())),
          sent)
        && c.atStake == old(conns[i].atStake)
    {
      hide ConnOk, Resume, Note, MarkAll, Safe, Concerns, Fitting, Track, Counted;
      var c := conns[i];
      ghost var b := Track(log, i, lastXa);
      assert OkAt(conns, log, lastXa, i, ActOf());
      Resumes(i, a);
      Turnout();
      CountedAnywhere(c, b, lastXa, a, i);
      var (d, sent) := Resume(c, a);
      Hear(i, Awaited(c), a.Success?);
      Go(i, d, sent, ActOf(), FailedOf(c, a));
      OneMore(conns, log, old(conns), old(log), lastXa, i, ActOf(), ActOf());
    }

    // ---- the calls

    /** A new connection joins the session, and its transaction (if any). */
    method Open(detach: bool)
      requires Valid() && phase == Quiet
      modifies this`conns
      ensures Valid() && conns ==
        old(conns) +
          [if trxOptions.Some? then TwoPhase.StartTrx(NewConn(detach), trxOptions.value) else NewConn(detach)]
    {
      hide Safe;
      var c := NewConn(detach);
      if trxOptions.Some? {
        c := TwoPhase.StartTrx(c, trxOptions.value);
      }
      assert Track(log, |conns|, lastXa) == BLANK;
      conns := conns + [c];
      forall j: nat | j < |conns|
        ensures OkAt(conns, log, lastXa, j, ActOf())
      {
        assert j < |old(conns)| ==> old(OkAt(conns, log, lastXa, j, ActOf()));
      }
    }

    /** The `commit()` of the session, up to the place where it waits for its connections to prepare. */
    method Commit(allowed: bool, purpose: Purpose)
      requires Valid() && phase == Quiet
      modifies this
      ensures Valid() && |conns| == |old(conns)| && lastXa == old(lastXa)
      ensures conns == [] ==> phase == Quiet && log == old(log)
      ensures conns != [] ==>
        phase == (if allowed then Preparing(purpose) else RollingBack(false, true)) && live == (allowed && old(live))
      ensures var r := if allowed then ToPrepare else ToRollback;
        && log == Spoken(old(log), old(conns), |conns|, r)
        && forall i :: 0 <= i < |conns| ==> conns[i] == Began(old(conns[i]), r).0
    {
      hide ConnOk, Track, Safe;
      trxOptions, outcome := None, None;
      if |conns| > 0 {
        if !allowed {
          RollBack(Act.Quietly(live), false, true);
        } else {
          PrepareAll();
          phase := Preparing(purpose);
        }
      }
    }

    method PrepareAll()
      requires Valid() && phase == Quiet
      modifies this`conns, this`log
      ensures LogOk(conns, log, lastXa) && |conns| == |old(conns)|
      ensures AllOkAt(conns, log, lastXa, 0, |conns|, Act.Voting(live))
      ensures forall i :: 0 <= i < |conns| ==> conns[i] == Began(old(conns[i]), ToPrepare).0
      ensures log == Spoken(old(log), old(conns), |conns|, ToPrepare)
    {
      hide ConnOk, Track, Safe, MarkAll, Fitting, Began, Staked, Extended, Spoken;
      SpokenNone(log, conns, ToPrepare);
      var i := 0;
      while i < |conns|
        invariant LogOk(conns, log, lastXa) && i <= |conns| == |old(conns)|
        invariant forall j :: 0 <= j < i ==> conns[j] == Began(old(conns[j]), ToPrepare).0
        invariant log == Spoken(old(log), old(conns), i, ToPrepare)
        invariant forall j :: i <= j < |conns| ==> conns[j] == old(conns[j])
        invariant AllOkAt(conns, log, lastXa, 0, i, Act.Voting(live))
          && AllOkAt(conns, log, lastXa, i, |conns|, Act.Quietly(live))
      {
        ghost var conns0, log0 := conns, log;
        assert OkAt(conns, log, lastXa, i, Act.Quietly(live));
        PrepareKeeps(conns[i], Track(log, i, lastXa), lastXa, live);
        if live {
          Undecided(conns, log, lastXa, i);
        }
        SpokenGoes(old(log), old(conns), i, ToPrepare);
        var (c, sent) := Began(conns[i], ToPrepare);
        Go(i, c, sent, Act.Voting(live), None);
        OneMore(conns, log, conns0, log0, lastXa, i, Act.Quietly(live), Act.Voting(live));
        i := i + 1;
      }
    }

    method CommitAll()
      requires Valid() && phase.Preparing? && AllResolved(conns, 0)
      modifies this`conns, this`log
      ensures LogOk(conns, log, lastXa) && |conns| == |old(conns)|
      ensures AllOkAt(conns, log, lastXa, 0, |conns|, Act.Deciding(live))
      ensures forall i :: 0 <= i < |conns| ==> conns[i] == Began(old(conns[i]), ToCommit).0
      ensures Staked(old(conns), conns)
      ensures log == Spoken(old(log), old(conns), |conns|, ToCommit)
    {
      hide ConnOk, Track, Safe, MarkAll, Fitting, Began, Staked, Extended, Spoken;
      SpokenNone(log, conns, ToCommit);
      var i := 0;
      while i < |conns|
        invariant LogOk(conns, log, lastXa) && i <= |conns| == |old(conns)|
        invariant forall j :: 0 <= j < i ==> conns[j] == Began(old(conns[j]), ToCommit).0
        invariant log == Spoken(old(log), old(conns), i, ToCommit)
        invariant forall j :: i <= j < |conns| ==> conns[j] == old(conns[j])
        invariant AllOkAt(conns, log, lastXa, 0, i, Act.Deciding(live))
          && AllOkAt(conns, log, lastXa, i, |conns|, Act.Voting(live))
        invariant AllResolved(conns, i)
      {
        ghost var conns0, log0 := conns, log;
        assert OkAt(conns, log, lastXa, i, Act.Voting(live));
        CommitKeeps(conns[i], Track(log, i, lastXa), lastXa, live);
        if live {
          Unanimous(conns, log, lastXa, i);
        }
        SpokenGoes(old(log), old(conns), i, ToCommit);
        var (c, sent) := Began(conns[i], ToCommit);
        Go(i, c, sent, Act.Deciding(live), None);
        OneMore(conns, log, conns0, log0, lastXa, i, Act.Voting(live), Act.Deciding(live));
        i := i + 1;
      }
      StakesTaken(old(conns), conns, ToCommit);
    }

    /** The `rollback()` of the session: the whole transaction, on every connection. */
    method RollBack(ghost act: Act, failedVote: bool, fails: bool)
      requires LogOk(conns, log, lastXa) && AllOkAt(conns, log, lastXa, 0, |conns|, act)
      requires if failedVote then act == Act.Voting(true) else act.Quietly? || act.Voting?
      requires act.Voting? ==> AllSettled(conns)
      modifies this
      ensures Valid() && |conns| == |old(conns)| && lastXa == old(lastXa) && phase == RollingBack(failedVote, fails)
      ensures forall i :: 0 <= i < |conns| ==> conns[i] == Began(old(conns[i]), ToRollback).0
      ensures Staked(old(conns), conns)
      ensures log == Spoken(old(log), old(conns), |conns|, ToRollback)
    {
      hide ConnOk, Track, Safe, MarkAll, Fitting, Began, Staked, Extended, Spoken;
      SpokenNone(log, conns, ToRollback);
      trxOptions, outcome := None, None;
      phase, live := RollingBack(failedVote, fails), false;
      var i := 0;
      while i < |conns|
        invariant LogOk(conns, log, lastXa) && i <= |conns| == |old(conns)| && lastXa == old(lastXa)
        invariant phase == RollingBack(failedVote, fails) && !live && trxOptions == None
        invariant forall j :: 0 <= j < i ==> conns[j] == Began(old(conns[j]), ToRollback).0
        invariant log == Spoken(old(log), old(conns), i, ToRollback)
        invariant forall j :: i <= j < |conns| ==> conns[j] == old(conns[j])
        invariant AllOkAt(conns, log, lastXa, 0, i, Act.Undoing(failedVote))
          && AllOkAt(conns, log, lastXa, i, |conns|, act)
        invariant act.Voting? ==> forall j :: i <= j < |conns| ==> conns[j].task.Settled?
      {
        ghost var conns0, log0 := conns, log;
        assert OkAt(conns, log, lastXa, i, act);
        RollbackKeeps(conns[i], Track(log, i, lastXa), lastXa, act, failedVote);
        SpokenGoes(old(log), old(conns), i, ToRollback);
        var (c, sent) := Began(conns[i], ToRollback);
        Go(i, c, sent, Act.Undoing(failedVote), None);
        OneMore(conns, log, conns0, log0, lastXa, i, act, Act.Undoing(failedVote));
        i := i + 1;
      }
      StakesTaken(old(conns), conns, ToRollback);
    }

    /**
     The session goes on after all its connections have settled. When a COMMIT was rejected, the
     participants that are still connected have committed exactly where COMMIT succeeded: their part of the distributed
     transaction, or the ordinary one that they had open.
     */
    method Turn()
      requires Valid() && !phase.Quiet? && AllSettled(conns)
      modifies this
      ensures Valid() && |conns| == |old(conns)|
      ensures var all := old(AllResolved(conns, 0));
        var r := if all then ToCommit else ToRollback;
        old(phase).Preparing? ==>
          && phase == (if all then Committing(old(phase).purpose) else RollingBack(true, true))
          && live == (all && old(live)) && log == Spoken(old(log), old(conns), |conns|, r)
          && Staked(old(conns), conns)
          && forall i :: 0 <= i < |conns| ==> conns[i] == Began(old(conns[i]), r).0
      ensures !old(phase).Preparing? ==> phase.Quiet? && log == old(log) && NothingLeft()
      ensures !old(phase).Preparing? ==> forall i :: 0 <= i < |conns| ==>
        && Finished(old(conns[i]))
        && var c := old(conns[i]).(task := NoTask);
        conns[i] == if old(Restarts()) then TwoPhase.StartTrx(c, if live then lastXa else 0) else c
      ensures lastXa == old(lastXa) + if old(Restarts() && phase.purpose.xa) then 1 else 0
      ensures !old(phase).Preparing? ==> live == old(Restarts() && phase.purpose.xa)
      ensures old(Restarts()) ==> trxOptions.Some?
      ensures old(phase).RollingBack? ==> outcome == Some(old(AllResolved(conns, 0)) && !old(phase).fails)
      ensures old(phase) == RollingBack(true, true) ==>
        forall i :: 0 <= i < |conns| ==> old(lastXa) !in conns[i].committed
      ensures old(phase).RollingBack? ==>
        forall i :: 0 <= i < |conns| && old(conns)[i].atStake ==> conns[i].ordinary != Durable
      ensures old(phase).Committing? ==>
        forall i :: 0 <= i < |conns| && old(conns)[i].connected && old(conns)[i].atStake ==>
          (conns[i].ordinary == Durable <==> old(conns)[i].task == Settled(true))
      ensures old(phase).Committing? ==> outcome == Some(old(AllResolved(conns, 0)))
      ensures old(phase).Committing? && old(live) ==>
        forall i: nat :: i < |conns| && Asked(log, i, old(lastXa)) ==>
          && (old(conns)[i].task == Settled(true) ==> old(lastXa) in conns[i].committed)
          && (old(conns)[i].connected ==>
                (old(lastXa) in conns[i].committed <==> old(conns)[i].task == Settled(true)))
    {
      hide Track, Safe, Began, Staked;
      match phase {
        case Quiet =>
        case Preparing(purpose) =>
          if AllResolved(conns, 0) {
            CommitAll();
            phase := Committing(purpose);
          } else {
            Voted();
            RollBack(Act.Voting(live), true, true);
          }
        case RollingBack(failedVote, fails) =>
          var ok := AllResolved(conns, 0);
          NobodyCommitted();
          Settle();
          outcome := Some(ok && !fails);
        case Committing(purpose) =>
          var ok := AllResolved(conns, 0);
          WhoCommitted();
          WhoIsDurable();
          Settle();
          if ok && purpose.StartAgain? {
            Begin(purpose.xa);
          }
          outcome := Some(ok);
      }
    }

    /** The commit that runs is the first part of `startTrx()`, and has succeeded. */
    predicate Restarts()
      reads this`conns, this`phase
    {
      phase.Committing? && phase.purpose.StartAgain? && AllResolved(conns, 0)
    }

    /** The server has no transaction of this session, on the connections that are kept. */
    predicate NothingLeft()
      reads this`conns
    {
      forall i :: 0 <= i < |conns| && conns[i].connected ==> conns[i].server == NoTrx
    }

    lemma Voted()
      requires Valid() && phase.Preparing? && AllSettled(conns) && !AllResolved(conns, 0)
      ensures live
    {
      hide Track, Safe;
      var i: nat :| i < |conns| && conns[i].task != Settled(true);
      assert OkAt(conns, log, lastXa, i, ActOf());
    }

    lemma WhoCommitted()
      requires Valid() && phase.Committing? && AllSettled(conns)
      ensures live ==> forall i: nat :: i < |conns| && Asked(log, i, lastXa) ==>
        && (conns[i].task == Settled(true) ==> lastXa in conns[i].committed)
        && (conns[i].connected ==> (lastXa in conns[i].committed <==> conns[i].task == Settled(true)))
    {
      hide Track, Safe;
      forall i: nat | live && i < |conns| && Asked(log, i, lastXa)
        ensures conns[i].task == Settled(true) ==> lastXa in conns[i].committed
        ensures conns[i].connected ==> (lastXa in conns[i].committed <==> conns[i].task == Settled(true))
      {
        AskedAndDecided(log, i, lastXa);
        assert OkAt(conns, log, lastXa, i, ActOf());
      }
    }

    lemma WhoIsDurable()
      requires Valid() && phase.Committing? && AllSettled(conns)
      ensures forall i :: 0 <= i < |conns| && conns[i].connected && conns[i].atStake ==>
        (conns[i].ordinary == Durable <==> conns[i].task == Settled(true))
    {
      hide Track, Safe;
      forall i: nat | i < |conns| && conns[i].connected && conns[i].atStake
        ensures conns[i].ordinary == Durable <==> conns[i].task == Settled(true)
      {
        assert OkAt(conns, log, lastXa, i, ActOf());
      }
    }

    lemma CommittingAsked(i: nat)
      requires Valid() && phase.Committing? && i < |conns| && conns[i].task.XaCommitting?
      ensures Asked(log, i, lastXa)
    {
      hide Track, Safe, Asked;
      assert OkAt(conns, log, lastXa, i, ActOf());
      AskedAndDecided(log, i, lastXa);
    }

    lemma NobodyCommitted()
      requires Valid() && phase.RollingBack?
      ensures phase.failedVote ==> forall i :: 0 <= i < |conns| ==> lastXa !in conns[i].committed
      ensures forall i :: 0 <= i < |conns| && conns[i].atStake ==> conns[i].ordinary != Durable
    {
      hide Track, Safe;
      forall i: nat | i < |conns|
        ensures phase.failedVote ==> lastXa !in conns[i].committed
        ensures conns[i].atStake ==> conns[i].ordinary != Durable
      {
        assert OkAt(conns, log, lastXa, i, ActOf());
      }
    }

    /** All connections are at rest, and in no transaction. */
    predicate AtRest()
      reads this`conns
    {
      forall i :: 0 <= i < |conns| ==> conns[i].task.NoTask? && Finished(conns[i])
    }

    method Settle()
      requires Valid() && AllSettled(conns) && (phase.RollingBack? || phase.Committing?)
      modifies this`conns, this`phase, this`live
      ensures Valid() && AtRest() && phase == Quiet && !live
      ensures |conns| == |old(conns)|
      ensures forall i :: 0 <= i < |conns| ==> conns[i] == old(conns[i]).(task := NoTask)
    {
      hide Track, Safe;
      ghost var act := ActOf();
      var settled := conns;
      conns := seq(|settled|, i requires 0 <= i < |settled| => settled[i].(task := NoTask));
      phase, live := Quiet, false;
      forall i: nat | i < |conns|
        ensures OkAt(conns, log, lastXa, i, Act.Quietly(false)) && Finished(conns[i])
      {
        assert old(OkAt(conns, log, lastXa, i, act));
      }
      assert AllOkAt(conns, log, lastXa, 0, |conns|, Act.Quietly(false));
    }

    /** The new transaction: each connection remembers to start it. */
    method Begin(xa: bool)
      requires Valid() && AtRest() && phase == Quiet && !live
      modifies this
      ensures Valid() && phase == Quiet && trxOptions.Some? && live == xa && log == old(log)
      ensures lastXa == old(lastXa) + (if xa then 1 else 0)
      ensures |conns| == |old(conns)| && outcome == old(outcome)
      ensures forall i :: 0 <= i < |conns| ==> conns[i] == TwoPhase.StartTrx(old(conns[i]), if xa then lastXa else 0)
    {
      hide Track, Safe;
      var x := 0;
      if xa {
        lastXa := lastXa + 1;
        x := lastXa;
      }
      trxOptions, live := Some(x), xa;
      var i := 0;
      while i < |conns|
        modifies this`conns
        invariant i <= |conns| == |old(conns)|
        invariant forall j :: 0 <= j < i ==> conns[j] == TwoPhase.StartTrx(old(conns[j]), x)
        invariant forall j :: i <= j < |conns| ==> conns[j] == old(conns[j])
      {
        conns := conns[i := TwoPhase.StartTrx(conns[i], x)];
        i := i + 1;
      }
      forall j: nat | j < |conns|
        ensures OkAt(conns, log, lastXa, j, Act.Quietly(live))
      {
        assert old(OkAt(conns, log, lastXa, j, ActOf()));
      }
    }

    /** `startTrx()`: the current transaction is committed first, if there are connections. */
    method StartTrx(allowed: bool, xa: bool)
      requires Valid() && phase == Quiet
      modifies this
      ensures Valid() && |conns| == |old(conns)|
      ensures conns == [] ==>
        phase == Quiet && trxOptions.Some? && live == xa && outcome == Some(true) && log == old(log)
      ensures conns == [] ==> lastXa == old(lastXa) + (if xa then 1 else 0)
      ensures conns != [] ==> phase == if allowed then Preparing(StartAgain(xa)) else RollingBack(false, true)
    {
      if |conns| > 0 {
        Commit(allowed, StartAgain(xa));
      } else {
        trxOptions, live := None, false;
        Begin(xa);
        outcome := Some(true);
      }
    }

    /**
     The part of a query that matters here: it connects, sends the START that waits, and can break the transaction.
     */
    method Query(i: nat, connects: bool, number: nat, fromPool: bool, toStart: Answer, toQuery: Answer)
      requires Valid() && phase == Quiet && i < |conns|
      modifies this`conns, this`log
      ensures Valid()
      ensures conns == old(conns)[i := AfterQuery(old(conns[i]), connects, number, fromPool, toStart, toQuery)]
      ensures var c := Reached(old(conns[i]), connects, number);
        log == if SendsStart(c, toStart) then old(log) + StartLog(i, c, toStart) else old(log)
    {
      hide Track, Safe, ConnOk, Fitting, MarkAll, Started, StartLog, Reached, Asks, LogOk, SendsStart;
      assert OkAt(conns, log, lastXa, i, ActOf());
      var c := Reached(conns[i], connects, number);
      ReachedFits(conns[i], Track(log, i, lastXa), lastXa, live, connects, number);
      if SendsStart(c, toStart) {
        SendStart(i, c, toStart, fromPool);
        c := Started(c, toStart, fromPool);
      }
      AsksFits(c, Track(log, i, lastXa), lastXa, live, toQuery);
      c := Asks(c, toQuery);
      NothingSent(Track(log, i, lastXa), c.connectionId, lastXa, ActOf());
      Step(i, c, []);
    }

    /** `Go`, while the session is quiet. */
    method Step(i: nat, c: Conn, sent: seq<Stmt>)
      requires Valid() && phase == Quiet && i < |conns|
      requires Fitting(sent, Track(log, i, lastXa), c.connectionId, lastXa, Act.Quietly(live), None)
      requires ConnOk(c, MarkAll(Track(log, i, lastXa), c.connectionId, sent, lastXa), lastXa, Act.Quietly(live))
      requires c.committed == conns[i].committed
      modifies this`conns, this`log
      ensures Valid() && conns == old(conns)[i := c] && log == Extended(old(log), i, c.connectionId, None, sent)
      ensures Track(log, i, lastXa) == MarkAll(old(Track(log, i, lastXa)), c.connectionId, sent, lastXa)
    {
      hide ConnOk, Track, Safe, MarkAll, Fitting;
      Go(i, c, sent, ActOf(), None);
      OneMore(conns, log, old(conns), old(log), lastXa, i, ActOf(), ActOf());
    }

    /** START is sent on `c`, and answered. */
    method SendStart(i: nat, c: Conn, a: Answer, fromPool: bool)
      requires Valid() && phase == Quiet && i < |conns| && SendsStart(c, a)
      requires ConnOk(c, Track(log, i, lastXa), lastXa, Act.Quietly(live)) && c.committed == conns[i].committed
      modifies this`conns, this`log
      ensures Valid() && conns == old(conns)[i := Started(c, a, fromPool)] && log == old(log) + StartLog(i, c, a)
      ensures OkAt(conns, log, lastXa, i, Act.Quietly(live))
    {
      hide ConnOk, Track, Safe, MarkAll, Fitting, Started, SendsStart, StartOf;
      StartFits(c, Track(log, i, lastXa), lastXa, live, a, fromPool);
      Step(i, Started(c, a, fromPool), [StartOf(c)]);
      HearStart(i, StartOf(c), a.Success?);
      assert log == old(log) + StartLog(i, c, a);
    }

    method HearStart(i: nat, s: Stmt, ok: bool)
      requires Valid() && i < |conns| && (s.PlainStart? || (s.Start? && s.id.x == lastXa))
      modifies this`log
      ensures Valid() && Track(log, i, lastXa) == old(Track(log, i, lastXa)) && log == old(log) + [Got(i, s, ok)]
    {
      hide ConnOk, Track, Safe;
      Hear(i, s, ok);
      assert AllOkAt(conns, log, lastXa, 0, |conns|, ActOf()) by {
        forall j: nat | j < |conns|
          ensures OkAt(conns, log, lastXa, j, ActOf())
        {
          assert old(OkAt(conns, log, lastXa, j, ActOf()));
        }
      }
    }
  }

  // ---- any run

  /** One event; one that cannot happen in this state is passed over. */
  method Happen(s: Session, e: Event)
    requires s.Valid()
    modifies s
    ensures s.Valid()
  {
    hide Track, Safe, ConnOk, Possible, Awaited, Waiting, Resume, AfterQuery, Began;
    match e {
      case Opens(detach) =>
        if s.phase == Quiet { s.Open(detach); }
      case Starts(allowed, xa) =>
        if s.phase == Quiet { s.StartTrx(allowed, xa); }
      case Queries(i, connects, number, fromPool, toStart, toQuery) =>
        if s.phase == Quiet && i < |s.conns| { s.Query(i, connects, number, fromPool, toStart, toQuery); }
      case Commits(allowed) =>
        if s.phase == Quiet { s.Commit(allowed, Stop); }
      case RollsBack =>
        if s.phase == Quiet { s.RollBack(Act.Quietly(s.live), false, false); }
      case Answers(i, a) =>
        if i < |s.conns| && Waiting(s.conns[i].task) && Possible(s.conns[i].server, Awaited(s.conns[i]), a) {
          s.Answer(i, a);
        }
      case Turns =>
        if s.phase != Quiet && AllSettled(s.conns) { s.Turn(); }
    }
  }

  /**
   Any run of a session, with any answers in any order: XA COMMIT is sent nowhere before every XA PREPARE of the
   transaction was granted, and nowhere at all when one never is; on each connection the statements of each transaction
   go in order; and an ID names the connection it is used on just when START was first sent there. Every statement goes
   in its round: the ordinary COMMIT when the session commits, and the ordinary ROLLBACK when it rolls back, or right
   after a COMMIT that failed.
   */
  method Run(events: seq<Event>) returns (s: Session)
    ensures s.Valid() && fresh(s)
    ensures CommitsFollowPrepares(s.log)
    ensures forall i: nat, j: nat, x: nat :: Asked(s.log, j, x) && NeverGranted(s.log, j, x) ==> !Decided(s.log, i, x)
    ensures forall i: nat, x: nat :: !Track(s.log, i, x).stage.OutOfOrder?
    ensures forall k :: 0 <= k < |s.log| && s.log[k].Sent? && !Plain(s.log[k].stmt) ==>
      (s.log[k].stmt.id.owner == s.log[k].on <==> StartedHere(s.log, k))
    ensures forall k :: 0 <= k < |s.log| && s.log[k].Sent? ==> InRound(s.log[..k], s.log[k])
  {
    hide Safe, Track, AllOkAt;
    s := new Session();
    for k := 0 to |events|
      invariant s.Valid() && fresh(s)
    {
      Happen(s, events[k]);
    }
    SafeRun(s.log);
  }

  lemma AllInRound(log: seq<Entry>)
    requires Safe(log)
    ensures forall k :: 0 <= k < |log| && log[k].Sent? ==> InRound(log[..k], log[k])
  {
    hide InRound, Track;
    forall k | 0 <= k < |log| && log[k].Sent?
      ensures InRound(log[..k], log[k])
    {
      assert InTurn(log[..k], log[k]);
    }
  }

  lemma SafeRun(log: seq<Entry>)
    requires Safe(log)
    ensures CommitsFollowPrepares(log)
    ensures forall i: nat, j: nat, x: nat :: Asked(log, j, x) && NeverGranted(log, j, x) ==> !Decided(log, i, x)
    ensures forall k :: 0 <= k < |log| && log[k].Sent? && !Plain(log[k].stmt) ==>
      (log[k].stmt.id.owner == log[k].on <==> StartedHere(log, k))
    ensures forall k :: 0 <= k < |log| && log[k].Sent? ==> InRound(log[..k], log[k])
  {
    AllInRound(log);
    hide Safe, Asked, Decided, NeverGranted, InRound;
    SafeMeans(log);
    forall i: nat, j: nat, x: nat | Asked(log, j, x) && NeverGranted(log, j, x)
      ensures !Decided(log, i, x)
    {
      FailedPrepareCommitsNowhere(log, i, j, x);
    }
    forall k | 0 <= k < |log| && log[k].Sent? && !Plain(log[k].stmt)
      ensures log[k].stmt.id.owner == log[k].on <==> StartedHere(log, k)
    {
      IdNamesConnection(log, k);
    }
  }

  // ---- runs that show what can go wrong

  /** A new session with a distributed transaction, and `n` connections that wait to start it. */
  method Opened(n: nat) returns (s: Session)
    ensures fresh(s) && s.Valid() && s.phase == Quiet && s.lastXa == 1 && s.live && s.log == []
    ensures s.conns == seq(n, _ => TwoPhase.StartTrx(NewConn(false), 1))
  {
    s := new Session();
    s.StartTrx(true, true);
    for i := 0 to n
      invariant fresh(s) && s.Valid() && s.phase == Quiet && s.lastXa == 1 && s.live && s.log == []
      invariant s.trxOptions == Some(1) && s.conns == seq(i, _ => TwoPhase.StartTrx(NewConn(false), 1))
    {
      s.Open(false);
    }
  }

  /** A connection with the number `n` and its distributed transaction 1, on the way to its end. */
  function At(n: nat, task: Task, prepared: bool, server: Trx): Conn {
    Conn(true, false, n, true, 1, Some(n), prepared, false, task, server, {}, NoOrdinary, false, false)
  }

  /** The same connection, when the transaction is over. */
  function Over(n: nat, ok: bool): Conn {
    Conn(true, false, n, false, 0, None, false, false, Settled(ok), NoTrx, if ok then {1} else {}, NoOrdinary, false,
      false)
  }

  predicate Goes(c: Conn, a: Answer, d: Conn, sent: seq<Stmt>) {
    Waiting(c.task) && Possible(c.server, Awaited(c), a) && Resume(c, a) == (d, sent)
  }

  /** The way of one participant to the vote. */
  lemma Prepares(n: nat)
    ensures var id := XaId(1, n);
      && AfterQuery(TwoPhase.StartTrx(NewConn(false), 1), true, n, false, Success, Success) ==
           At(n, NoTask, false, Trx.Open(id))
      && Began(At(n, NoTask, false, Trx.Open(id)), ToPrepare).0 == At(n, EndThenPrepare, false, Trx.Open(id))
      && Goes(At(n, EndThenPrepare, false, Trx.Open(id)), Success, At(n, PrepareOnly(false), false, Ended(id)), [])
      && Goes(At(n, PrepareOnly(false), false, Ended(id)), Success, At(n, Settled(true), true, Prepared(id)), [])
      && Began(At(n, Settled(true), true, Prepared(id)), ToCommit).0 == At(n, XaCommitting, true, Prepared(id))
  {
  }

  /** COMMIT succeeds, or is rejected. */
  lemma Decides(n: nat)
    ensures var id := XaId(1, n);
      && Goes(At(n, XaCommitting, true, Prepared(id)), Success, Over(n, true), [])
      && Goes(At(n, XaCommitting, true, Prepared(id)), Failure(false, false), At(n, XaUndoing, true, Prepared(id)),
           [XaRollback(id)])
      && Goes(At(n, XaUndoing, true, Prepared(id)), Success, Over(n, false), [])
  {
    assert {} + {1} == {1};
  }

  lemma AskedLater(log: seq<Entry>, l: seq<Entry>)
    requires log <= l
    ensures forall j: nat, x: nat :: Asked(log, j, x) ==> Asked(l, j, x)
  {
    assert forall k :: 0 <= k < |log| ==> l[k] == log[k];
  }

  /** Two participants have prepared, and COMMIT was sent to both. */
  method BothCommitting() returns (s: Session)
    ensures fresh(s) && s.Valid() && s.phase == Committing(Stop) && s.lastXa == 1 && s.live
    ensures s.conns == [At(7, XaCommitting, true, Prepared(XaId(1, 7))),
      At(8, XaCommitting, true, Prepared(XaId(1, 8)))]
    ensures Asked(s.log, 0, 1) && Asked(s.log, 1, 1)
  {
    hide Safe, ConnOk, Track, AfterQuery, Began, Waiting, Possible, Awaited, Resume, Asked;
    s := Opened(2);
    Prepares(7);
    Prepares(8);
    s.Query(0, true, 7, false, Success, Success);
    s.Query(1, true, 8, false, Success, Success);
    s.Commit(true, Stop);
    s.Answer(0, Success);
    s.Answer(1, Success);
    s.Answer(0, Success);
    s.Answer(1, Success);
    s.Turn();
    s.CommittingAsked(0);
    s.CommittingAsked(1);
  }

  /**
   Two participants have prepared; COMMIT succeeds on one, and is rejected on the other, that is rolled back then.
   The call reports a failure, and one half of the transaction is durable.
   */
  method PartialCommit() returns (s: Session)
    ensures s.Valid() && s.phase == Quiet && s.outcome == Some(false) && |s.conns| == 2
    ensures Asked(s.log, 0, 1) && Asked(s.log, 1, 1)
    ensures s.conns[0].connected && 1 in s.conns[0].committed && s.conns[1].connected && 1 !in s.conns[1].committed
  {
    hide Safe, ConnOk, Track, AfterQuery, Began, Waiting, Possible, Awaited, Resume, Asked;
    s := BothCommitting();
    Decides(7);
    Decides(8);
    ghost var log := s.log;
    s.Answer(0, Success);
    s.Answer(1, Failure(false, false));
    s.Answer(1, Success);
    assert s.conns == [Over(7, true), Over(8, false)];
    assert log <= s.log;
    assert s.conns[1].task != Settled(true);
    s.Turn();
    AskedLater(log, s.log);
  }

  /**
   A connection from the pool, numbered 7, breaks when START is sent on it. START is sent again on the
   connection 8, under the ID that has 7 in it; and so it gets prepared.
   */
  method ResentStart() returns (s: Session)
    ensures s.Valid() && s.phase == Preparing(Stop) && |s.conns| == 1 && s.conns[0].connected
    ensures s.conns[0].connectionId == 8 && s.conns[0].server == Prepared(XaId(1, 7))
  {
    hide Safe, ConnOk, Track, AfterQuery, Began, Waiting, Possible, Awaited, Resume;
    s := Opened(1);
    Resends(7, 8);
    s.Query(0, true, 7, true, Lost(false), Success);
    s.Query(0, true, 8, false, Success, Success);
    s.Commit(true, Stop);
    s.Answer(0, Success);
    s.Answer(0, Success);
  }

  lemma Resends(n: nat, m: nat)
    ensures var id: XaId, c: Conn := XaId(1, n), TwoPhase.StartTrx(NewConn(false), 1);
      var lost := c.(connectionId := n, owner := Some(n));
      && AfterQuery(c, true, n, true, Lost(false), Success) == lost
      && AfterQuery(lost, true, m, false, Success, Success) == At(n, NoTask, false, Trx.Open(id)).(connectionId := m)
      && Began(At(n, NoTask, false, Trx.Open(id)).(connectionId := m), ToPrepare).0 ==
           At(n, EndThenPrepare, false, Trx.Open(id)).(connectionId := m)
      && Goes(At(n, EndThenPrepare, false, Trx.Open(id)).(connectionId := m), Success,
           At(n, PrepareOnly(false), false, Ended(id)).(connectionId := m), [])
      && Goes(At(n, PrepareOnly(false), false, Ended(id)).(connectionId := m), Success,
           At(n, Settled(true), true, Prepared(id)).(connectionId := m), [])
  {
  }
}
