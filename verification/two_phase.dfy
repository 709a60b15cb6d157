/**
 Two-phase commit over the connections of one session.

 A connection runs its part of `commit()` or `rollback()` on its own: it sends a statement,
 and goes on when the answer comes. Answers of different connections come in any order, and
 each can be a success, an error, or the loss of the connection. What a connection sends at
 one go is a list of statements; everything sent and answered goes to the log of the session.
 */
module TwoPhase {
  import opened Results

  /**
   The ID of a distributed transaction: `x` numbers those of the session, and stands for the first
   part of the ID; `owner` is the number of the connection that is appended to it.
   */
  datatype XaId = XaId(x: nat, owner: nat)

  /** No distributed transaction. */
  const PLAIN := XaId(0, 0)

  datatype Stmt =
    | Start(id: XaId)
    | XaEnd(id: XaId)
    | XaPrepare(id: XaId)
    | XaCommit(id: XaId)
    | XaRollback(id: XaId)
    | PlainStart
    | PlainCommit
    | PlainRollback

  /** What the session asks of all its connections. */
  datatype Round = ToPrepare | ToRollback | ToCommit

  /**
   What the connection object `conn` sent, on the connection that the server knows under the number `on`, and in which
   round (if any).
   */
  datatype Entry = Sent(conn: nat, on: nat, round: Option<Round>, stmt: Stmt) | Got(conn: nat, stmt: Stmt, ok: bool)

  /**
   An error can undo the server's transaction (a deadlock); a connection can break before or after the statement ran.
   */
  datatype Answer = Success | Failure(undone: bool, retryable: bool) | Lost(done: bool)

  predicate Plain(s: Stmt) {
    s.PlainStart? || s.PlainCommit? || s.PlainRollback?
  }

  // ---- the server's side of one connection

  /** `Open(PLAIN)` is an ordinary transaction. */
  datatype Trx = NoTrx | Open(id: XaId) | Ended(id: XaId) | Prepared(id: XaId)

  /** Whether the server can carry the statement out. */
  predicate Accepts(t: Trx, s: Stmt) {
    match s
    case Start(id) => t == NoTrx && id.x > 0
    case PlainStart => t == NoTrx
    case XaEnd(id) => t == Open(id) && id.x > 0
    case XaPrepare(id) => t == Ended(id)
    case XaCommit(id) => t == Prepared(id)
    case XaRollback(id) => t == Ended(id) || t == Prepared(id)
    case PlainCommit => t == NoTrx || t == Open(PLAIN)
    case PlainRollback => t == NoTrx || t == Open(PLAIN)
  }

  function Carried(s: Stmt): Trx {
    match s
    case Start(id) => Open(id)
    case PlainStart => Open(PLAIN)
    case XaEnd(id) => Ended(id)
    case XaPrepare(id) => Prepared(id)
    case _ => NoTrx
  }

  /** The server drops what is not prepared when the connection is gone or is reset. */
  function Orphaned(t: Trx): Trx {
    if t.Prepared? then t else NoTrx
  }

  predicate Possible(t: Trx, s: Stmt, a: Answer) {
    CarriedOut(a) ==> Accepts(t, s)
  }

  function Served(t: Trx, s: Stmt, a: Answer): Trx {
    match a
    case Success => Carried(s)
    case Failure(undone, _) => if undone then NoTrx else t
    case Lost(done) => Orphaned(if done then Carried(s) else t)
  }

  /** The server's last ordinary transaction: in the end it is durable, or it is not. */
  datatype Ordinary = NoOrdinary | Running | Durable | Undone

  predicate CarriedOut(a: Answer) {
    a.Success? || (a.Lost? && a.done)
  }

  /**
   The ordinary transaction after the statement: only a COMMIT that was carried out while it was open makes it durable,
   and whatever else ends it undoes it.
   */
  function OrdinaryAfter(o: Ordinary, t: Trx, s: Stmt, a: Answer): Ordinary {
    if Served(t, s, a) == Open(PLAIN) then Running
    else if s.PlainStart? && CarriedOut(a) then Undone
    else if t != Open(PLAIN) then o
    else if s.PlainCommit? && CarriedOut(a) then Durable
    else Undone
  }

  /** The connection is gone, or the transaction was undone. */
  function Broken(o: Ordinary): Ordinary {
    if o == Running then Undone else o
  }

  // ---- one connection

  /** The statement that the connection waits for, and what it is doing. */
  datatype Task =
    | NoTask
    | EndThenPrepare
    | PrepareOnly(endFailed: bool)
    | EndThenRollback
    | XaRollingBack
    | PlainRollingBack
    | XaCommitting
    | XaUndoing
    | PlainCommitting
    | PlainUndoing
    | Settled(ok: bool)

  /**
   `inTrans` is the transaction flag of the last OK packet; `detach` is the server's
   `xa_detach_on_prepare`; `broken` is a connection in the error state, on which every send throws.
   `connectionId` is the number that the server gave to the connection. `curXaId` is the first part of
   the XA ID, and `owner` the number appended to it, if it is there already.
   `pendingStart` is the START that waits in `pendingTrxSql`. `committed` are the distributed
   transactions that this server made durable, and `ordinary` is its last ordinary one. `atStake`: that one was open
   when the session last began to commit or to roll back.
   */
  datatype Conn = Conn(
    connected: bool, broken: bool, connectionId: nat, inTrans: bool, curXaId: nat, owner: Option<nat>,
    isXaPrepared: bool, pendingStart: bool, task: Task, server: Trx, committed: set<nat>, ordinary: Ordinary,
    atStake: bool, detach: bool)

  function NewConn(detach: bool): Conn {
    Conn(false, false, 0, false, 0, None, false, false, NoTask, NoTrx, {}, NoOrdinary, false, detach)
  }

  /** The ID in the statements of this connection. */
  function IdOf(c: Conn): XaId {
    if c.curXaId == 0 then PLAIN
    else XaId(c.curXaId, if c.owner.Some? then c.owner.value else c.connectionId)
  }

  function Cleared(c: Conn, ok: bool): Conn {
    c.(curXaId := 0, owner := None, isXaPrepared := false, pendingStart := false, task := Settled(ok))
  }

  /** The connection goes back to the pool, that resets it. */
  function Dropped(c: Conn): Conn {
    Cleared(c, false).(connected := false, broken := false, inTrans := false, server := Orphaned(c.server),
      ordinary := Broken(c.ordinary))
  }

  /** The session has committed before, so there is nothing to wait for: no transaction is open. */
  function StartTrx(c: Conn, x: nat): Conn
    requires !(c.connected && c.inTrans)
  {
    c.(curXaId := x, owner := if x > 0 && c.connected then Some(c.connectionId) else None, pendingStart := true)
  }

  function PrepareCommit(c: Conn): (Conn, seq<Stmt>) {
    if c.connected && c.inTrans && c.curXaId != 0 && !c.isXaPrepared then
      if c.broken then (c.(task := Settled(false)), [])
      else (c.(task := EndThenPrepare), [XaEnd(IdOf(c)), XaPrepare(IdOf(c))])
    else
      (c.(task := Settled(true)), [])
  }

  function Rollback(c: Conn): (Conn, seq<Stmt>) {
    if c.connected && (c.inTrans || c.isXaPrepared) then
      if c.broken then (Dropped(c), [])
      else if c.curXaId == 0 then (c.(task := PlainRollingBack), [PlainRollback])
      else if c.isXaPrepared then (c.(task := XaRollingBack), [XaRollback(IdOf(c))])
      else (c.(task := EndThenRollback), [XaEnd(IdOf(c)), XaRollback(IdOf(c))])
    else
      (Cleared(c, true), [])
  }

  function Commit(c: Conn): (Conn, seq<Stmt>) {
    if c.connected && (c.inTrans || c.isXaPrepared) then
      if c.curXaId != 0 && !c.isXaPrepared then (c.(task := Settled(false)), [])
      else if c.broken then (Dropped(c), [])
      else if c.curXaId != 0 then (c.(task := XaCommitting), [XaCommit(IdOf(c))])
      else (c.(task := PlainCommitting), [PlainCommit])
    else
      (Cleared(c, true), [])
  }

  /** What a connection becomes, and what it sends, when a round begins. */
  function Began(c: Conn, r: Round): (m: (Conn, seq<Stmt>))
    ensures |m.1| <= 2
  {
    var n := if r == ToPrepare then c else c.(atStake := c.server == Open(PLAIN));
    match r
    case ToPrepare => PrepareCommit(n)
    case ToRollback => Rollback(n)
    case ToCommit => Commit(n)
  }

  /** What is at stake in the commits, and in the rollbacks: the ordinary transaction that the server has open. */
  lemma StakeTaken(c: Conn, r: Round)
    requires r != ToPrepare
    ensures Began(c, r).0.atStake <==> c.server == Open(PLAIN)
  {
  }

  predicate Waiting(t: Task) {
    !t.NoTask? && !t.Settled?
  }

  function Awaited(c: Conn): Stmt
    requires Waiting(c.task)
  {
    match c.task
    case EndThenPrepare => XaEnd(IdOf(c))
    case PrepareOnly(_) => XaPrepare(IdOf(c))
    case EndThenRollback => XaEnd(IdOf(c))
    case XaRollingBack => XaRollback(IdOf(c))
    case PlainRollingBack => PlainRollback
    case XaCommitting => XaCommit(IdOf(c))
    case XaUndoing => XaRollback(IdOf(c))
    case PlainCommitting => PlainCommit
    case _ => PlainRollback
  }

  /** The answer arrives: what it does to the server's state and to the flags. */
  function Answered(c: Conn, s: Stmt, a: Answer): Conn {
    var t := Served(c.server, s, a);
    c.(server := t,
       broken := c.broken || a.Lost?,
       inTrans := if a.Success? then t.Open? || t.Ended? || (t.Prepared? && !c.detach) else c.inTrans,
       committed := if s.XaCommit? && CarriedOut(a) then c.committed + {s.id.x} else c.committed,
       ordinary := OrdinaryAfter(c.ordinary, c.server, s, a))
  }

  /** The connection goes on after the answer: its new state, and what it sends next. */
  function Resume(c: Conn, a: Answer): (Conn, seq<Stmt>)
    requires Waiting(c.task)
  {
    var d := Answered(c, Awaited(c), a);
    var retry := a.Failure? && a.retryable && !c.inTrans;
    match c.task
    case EndThenPrepare =>
      if a.Lost? then (d.(task := Settled(false)), []) else (d.(task := PrepareOnly(!a.Success?)), [])
    case PrepareOnly(endFailed) =>
      if retry then (d.(task := PrepareOnly(false)), [XaPrepare(IdOf(c))])
      else if a.Success? && !endFailed then (d.(isXaPrepared := true, task := Settled(true)), [])
      else (d.(task := Settled(false)), [])
    case EndThenRollback =>
      if a.Lost? then (Dropped(d), []) else (d.(task := XaRollingBack), [])
    case XaCommitting =>
      if a.Success? then (Cleared(d, true), [])
      else if retry then (d, [XaCommit(IdOf(c))])
      else if a.Lost? then (Dropped(d), [])
      else (d.(task := XaUndoing), [XaRollback(IdOf(c))])
    case PlainCommitting =>
      if a.Success? then (Cleared(d, true), [])
      else if retry then (d, [PlainCommit])
      else if a.Lost? then (Dropped(d), [])
      else (d.(task := PlainUndoing), [PlainRollback])
    case _ =>
      if a.Success? then (Cleared(d, !c.task.XaUndoing? && !c.task.PlainUndoing?), [])
      else if retry then (d, [Awaited(c)])
      else (Dropped(d), [])
  }

  // ---- the log, read per connection and transaction

  /** How far one transaction has got on one connection. */
  datatype Stage = Fresh | Begun | EndSent | PrepareSent | EndAgain | CommitSent | RollbackSent | OutOfOrder

  /** START, END, PREPARE, then COMMIT or ROLLBACK; ROLLBACK also after a COMMIT that failed, or with END repeated. */
  function Next(g: Stage, s: Stmt): Stage {
    match s
    case Start(_) => if g.Fresh? || g.Begun? then Begun else OutOfOrder
    case XaEnd(_) => if g.Begun? then EndSent else if g.PrepareSent? then EndAgain else OutOfOrder
    case XaPrepare(_) => if g.EndSent? || g.PrepareSent? then PrepareSent else OutOfOrder
    case XaCommit(_) => if g.PrepareSent? || g.CommitSent? then CommitSent else OutOfOrder
    case XaRollback(_) =>
      if g.EndSent? || g.EndAgain? || g.PrepareSent? || g.CommitSent? || g.RollbackSent? then RollbackSent
      else OutOfOrder
    case _ => OutOfOrder
  }

  /**
   `asked` and `granted`: PREPARE was sent, and the last one was answered OK. `decided`: COMMIT was
   sent. `first` is the connection on which START was sent for the first time.
   */
  datatype Ballot = Ballot(stage: Stage, asked: bool, granted: bool, decided: bool, first: Option<nat>)

  const BLANK := Ballot(Fresh, false, false, false, None)

  predicate Concerns(e: Entry, i: nat, x: nat) {
    e.conn == i && !Plain(e.stmt) && e.stmt.id.x == x
  }

  function Mark(b: Ballot, on: nat, s: Stmt): Ballot {
    var n := b.(stage := Next(b.stage, s));
    match s
    case Start(_) => if b.first.None? then n.(first := Some(on)) else n
    case XaPrepare(_) => n.(asked := true, granted := false)
    case XaCommit(_) => n.(decided := true)
    case _ => n
  }

  function Note(b: Ballot, e: Entry): Ballot {
    match e
    case Sent(_, on, _, s) => Mark(b, on, s)
    case Got(_, s, ok) => if s.XaPrepare? && ok then b.(granted := true) else b
  }

  function Track(log: seq<Entry>, i: nat, x: nat): Ballot {
    if log == [] then BLANK
    else
      var b := Track(log[..|log| - 1], i, x);
      var e := log[|log| - 1];
      if Concerns(e, i, x) then Note(b, e) else b
  }

  lemma TrackOne(log: seq<Entry>, e: Entry)
    ensures forall i: nat, x: nat ::
      Track(log + [e], i, x) == (if Concerns(e, i, x) then Note(Track(log, i, x), e) else Track(log, i, x))
  {
    assert (log + [e])[..|log|] == log;
  }

  /** What one connection sends at one go, after the answer it got (if any). */
  function Extended(log: seq<Entry>, i: nat, on: nat, r: Option<Round>, stmts: seq<Stmt>): seq<Entry>
    requires |stmts| <= 2
  {
    if |stmts| == 0 then log
    else if |stmts| == 1 then log + [Sent(i, on, r, stmts[0])]
    else log + [Sent(i, on, r, stmts[0])] + [Sent(i, on, r, stmts[1])]
  }

  /** The log when the first `n` connections have begun a round. */
  function Spoken(log: seq<Entry>, conns: seq<Conn>, n: nat, r: Round): seq<Entry>
    requires n <= |conns|
  {
    if n == 0 then log
    else Extended(Spoken(log, conns, n - 1, r), n - 1, conns[n - 1].connectionId, Some(r), Began(conns[n - 1], r).1)
  }

  function MarkAll(b: Ballot, on: nat, stmts: seq<Stmt>, x: nat): Ballot
    requires |stmts| <= 2
  {
    if |stmts| == 0 then b
    else
      var m := if Concerns(Got(0, stmts[0], true), 0, x) then Mark(b, on, stmts[0]) else b;
      if |stmts| == 2 && Concerns(Got(0, stmts[1], true), 0, x) then Mark(m, on, stmts[1]) else m
  }

  lemma TrackExtended(log: seq<Entry>, i: nat, on: nat, r: Option<Round>, stmts: seq<Stmt>)
    requires |stmts| <= 2
    ensures forall j: nat, x: nat ::
      Track(Extended(log, i, on, r, stmts), j, x) ==
        (if j == i then MarkAll(Track(log, j, x), on, stmts, x) else Track(log, j, x))
  {
    if |stmts| >= 1 {
      TrackOne(log, Sent(i, on, r, stmts[0]));
    }
    if |stmts| == 2 {
      TrackOne(log + [Sent(i, on, r, stmts[0])], Sent(i, on, r, stmts[1]));
    }
  }

  // ---- what every run keeps

  /**
   When `e` follows `log`: COMMIT needs every PREPARE of the transaction granted, PREPARE needs no
   COMMIT sent yet, and the ID has the number of the connection on which START was first sent. Each statement goes in
   its round.
   */
  ghost predicate InTurn(log: seq<Entry>, e: Entry) {
    && (e.Sent? && e.stmt.XaCommit? ==>
          forall j: nat :: Track(log, j, e.stmt.id.x).asked ==> Track(log, j, e.stmt.id.x).granted)
    && (e.Sent? && e.stmt.XaPrepare? ==> forall j: nat :: !Track(log, j, e.stmt.id.x).decided)
    && (e.Sent? && !Plain(e.stmt) ==> Named(Track(log, e.conn, e.stmt.id.x), e))
    && (e.Sent? ==> InRound(log, e))
  }

  /** COMMIT is sent when the session commits; the ordinary ROLLBACK when it rolls back, or COMMIT has just failed. */
  predicate InRound(log: seq<Entry>, e: Entry)
    requires e.Sent?
  {
    match e.stmt
    case XaPrepare(_) => e.round == Some(ToPrepare)
    case XaCommit(_) => e.round == Some(ToCommit)
    case PlainCommit => e.round == Some(ToCommit)
    case PlainRollback =>
      e.round == Some(ToRollback) || (log != [] && log[|log| - 1] == Got(e.conn, PlainCommit, false))
    case PlainStart => e.round == None
    case Start(_) => e.round == None
    case _ => e.round != None
  }

  predicate Named(b: Ballot, e: Entry)
    requires e.Sent? && !Plain(e.stmt)
  {
    if e.stmt.Start? && b.first.None? then e.stmt.id.owner == e.on else b.first == Some(e.stmt.id.owner)
  }

  ghost predicate Safe(log: seq<Entry>) {
    forall k :: 0 <= k < |log| ==> InTurn(log[..k], log[k])
  }

  lemma SafeOne(log: seq<Entry>, e: Entry)
    requires Safe(log) && InTurn(log, e)
    ensures Safe(log + [e])
  {
    var l := log + [e];
    forall k | 0 <= k < |l|
      ensures InTurn(l[..k], l[k])
    {
      assert l[..k] == if k < |log| then log[..k] else log;
    }
  }

  // ---- the same, said about places of the log

  predicate IsStart(e: Entry, i: nat, x: nat) {
    e.Sent? && e.stmt.Start? && Concerns(e, i, x)
  }

  predicate FirstStart(log: seq<Entry>, m: nat, i: nat, x: nat)
    requires m < |log|
  {
    IsStart(log[m], i, x) && forall k :: 0 <= k < m ==> !IsStart(log[k], i, x)
  }

  predicate IsPrepare(e: Entry, i: nat, x: nat) {
    e.Sent? && e.stmt.XaPrepare? && Concerns(e, i, x)
  }

  predicate IsGrant(e: Entry, i: nat, x: nat) {
    e.Got? && e.ok && e.stmt.XaPrepare? && Concerns(e, i, x)
  }

  predicate IsCommit(e: Entry, i: nat, x: nat) {
    e.Sent? && e.stmt.XaCommit? && Concerns(e, i, x)
  }

  /** PREPARE of `x` was sent by the connection `i`. */
  predicate Asked(log: seq<Entry>, i: nat, x: nat) {
    exists k :: 0 <= k < |log| && IsPrepare(log[k], i, x)
  }

  predicate Decided(log: seq<Entry>, i: nat, x: nat) {
    exists k :: 0 <= k < |log| && IsCommit(log[k], i, x)
  }

  /** What the ballot says about the log. */
  lemma {:induction false} AskedAndDecided(log: seq<Entry>, i: nat, x: nat)
    ensures Track(log, i, x).asked <==> Asked(log, i, x)
    ensures Track(log, i, x).decided <==> Decided(log, i, x)
    decreases |log|
  {
    if log != [] {
      var p, e := log[..|log| - 1], log[|log| - 1];
      AskedAndDecided(p, i, x);
      assert log[|log| - 1] == e;
      assert forall k :: 0 <= k < |p| ==> log[k] == p[k];
      assert Asked(log, i, x) <==> Asked(p, i, x) || IsPrepare(e, i, x);
      assert Decided(log, i, x) <==> Decided(p, i, x) || IsCommit(e, i, x);
    }
  }

  /** A granted ballot: every PREPARE in the log was answered OK later. */
  lemma {:induction false} Granted(log: seq<Entry>, i: nat, x: nat, m: nat) returns (n: nat)
    requires Track(log, i, x).granted
    requires m < |log| && IsPrepare(log[m], i, x)
    ensures m < n < |log| && IsGrant(log[n], i, x)
    decreases |log|
  {
    var p, e := log[..|log| - 1], log[|log| - 1];
    if IsGrant(e, i, x) {
      n := |log| - 1;
    } else {
      n := Granted(p, i, x, m);
    }
  }

  /** The first START: the ballot remembers the connection it was sent on. */
  lemma {:induction false} StartFound(log: seq<Entry>, i: nat, x: nat) returns (m: nat)
    requires Track(log, i, x).first.Some?
    ensures m < |log| && FirstStart(log, m, i, x) && Track(log, i, x).first == Some(log[m].on)
    decreases |log|
  {
    var p, e := log[..|log| - 1], log[|log| - 1];
    if Track(p, i, x).first.Some? {
      m := StartFound(p, i, x);
    } else {
      m := |log| - 1;
      NoStart(p, i, x);
    }
  }

  lemma {:induction false} NoStart(log: seq<Entry>, i: nat, x: nat)
    requires Track(log, i, x).first.None?
    ensures forall k :: 0 <= k < |log| ==> !IsStart(log[k], i, x)
    decreases |log|
  {
    if log != [] {
      NoStart(log[..|log| - 1], i, x);
    }
  }

  /**
   The safety of two-phase commit, said about places of the log: before the place where
   COMMIT of a transaction is sent to any connection, every PREPARE of that transaction, on every
   connection, was sent and answered OK; and none is sent later.
   */
  lemma CommitAfterEveryPrepare(log: seq<Entry>, k: nat, m: nat, i: nat, j: nat, x: nat) returns (n: nat)
    requires Safe(log) && k < |log| && m < |log|
    requires IsCommit(log[k], i, x) && IsPrepare(log[m], j, x)
    ensures m < n < k && IsGrant(log[n], j, x)
  {
    assert k < m ==> Decided(log[..m], i, x) by {
      assert k < m ==> log[..m][k] == log[k];
    }
    AskedAndDecided(log[..k], j, x);
    AskedAndDecided(log[..m], i, x);
    assert InTurn(log[..k], log[k]) && InTurn(log[..m], log[m]);
    assert m < k && log[..k][m] == log[m];
    n := Granted(log[..k], j, x, m);
  }

  /** The two facts above, for all places of a log. */
  ghost predicate CommitsFollowPrepares(log: seq<Entry>) {
    forall k, m, i: nat, j: nat, x: nat ::
      0 <= k < |log| && 0 <= m < |log| && IsCommit(log[k], i, x) && IsPrepare(log[m], j, x) ==>
        m < k && exists n :: m < n < k && IsGrant(log[n], j, x)
  }

  lemma SafeMeans(log: seq<Entry>)
    requires Safe(log)
    ensures CommitsFollowPrepares(log)
  {
    forall k: nat, m: nat, i: nat, j: nat, x: nat
      | k < |log| && m < |log| && IsCommit(log[k], i, x) && IsPrepare(log[m], j, x)
      ensures m < k && exists n :: m < n < k && IsGrant(log[n], j, x)
    {
      var n := CommitAfterEveryPrepare(log, k, m, i, j, x);
    }
  }

  predicate NeverGranted(log: seq<Entry>, j: nat, x: nat) {
    forall n :: 0 <= n < |log| ==> !IsGrant(log[n], j, x)
  }

  /** A PREPARE that never got its OK: the transaction is committed nowhere. */
  lemma FailedPrepareCommitsNowhere(log: seq<Entry>, i: nat, j: nat, x: nat)
    requires Safe(log)
    requires Asked(log, j, x) && NeverGranted(log, j, x)
    ensures !Decided(log, i, x)
  {
    if Decided(log, i, x) {
      var k: nat :| k < |log| && IsCommit(log[k], i, x);
      var m: nat :| m < |log| && IsPrepare(log[m], j, x);
      var n := CommitAfterEveryPrepare(log, k, m, i, j, x);
    }
  }

  /** The first START of the transaction was sent on the connection where the statement at `k` is sent. */
  ghost predicate StartedHere(log: seq<Entry>, k: nat)
    requires k < |log| && log[k].Sent? && !Plain(log[k].stmt)
  {
    var i, x := log[k].conn, log[k].stmt.id.x;
    exists m :: 0 <= m <= k && FirstStart(log, m, i, x) && log[m].on == log[k].on
  }

  /**
   The ID in a statement names the connection that it runs on if and only if START was sent there
   for the first time: a START that is sent again after its connection was replaced keeps the old number.
   */
  lemma IdNamesConnection(log: seq<Entry>, k: nat)
    requires Safe(log) && k < |log| && log[k].Sent? && !Plain(log[k].stmt)
    ensures log[k].stmt.id.owner == log[k].on <==>
      StartedHere(log, k)
  {
    var i, x := log[k].conn, log[k].stmt.id.x;
    assert InTurn(log[..k], log[k]);
    assert forall m :: 0 <= m < k ==> log[..k][m] == log[m];
    if Track(log[..k], i, x).first.Some? {
      var f := StartFound(log[..k], i, x);
      assert FirstStart(log, f, i, x);
    } else {
      NoStart(log[..k], i, x);
      assert FirstStart(log, k, i, x);
    }
  }

  // ---- the invariant of one connection

  /**
   What the session is doing, as its connections see it. `live`: the last distributed
   transaction can still be prepared or committed. `failedVote`: a PREPARE of it failed.
   */
  datatype Act = Quietly(live: bool) | Voting(live: bool) | Undoing(failedVote: bool) | Deciding(live: bool)

  /** The server's transaction is one that the connection knows about. */
  predicate ServerFits(c: Conn, ts: set<Trx>) {
    c.connected ==> c.server in ts && (c.server != NoTrx ==> c.inTrans || c.isXaPrepared)
  }

  /** A connection that can send statements about its distributed transaction. */
  predicate InXa(c: Conn) {
    c.connected && !c.broken && c.curXaId > 0 && (c.isXaPrepared || c.inTrans)
  }

  /** The state of a connection, against its ballot in the last distributed transaction `x`. */
  predicate ConnOk(c: Conn, b: Ballot, x: nat, act: Act) {
    && (c.curXaId == 0 || c.curXaId == x)
    && !b.stage.OutOfOrder?
    && (c.isXaPrepared ==> c.connected && c.curXaId > 0)
    && (x in c.committed ==> b.decided) && OwnerOk(c, b) && OrdinaryOk(c)
    && match act
       case Quietly(live) => QuietOk(c, b, live)
       case Voting(live) => VotingOk(c, b, live)
       case Undoing(failedVote) => UndoingOk(c, b, failedVote)
       case Deciding(live) => DecidingOk(c, b, x, live)
  }

  /** The number in the ID is that of the connection on which START was first sent, or is going to be. */
  predicate OwnerOk(c: Conn, b: Ballot) {
    && (b.first.Some? <==> !b.stage.Fresh?)
    && (c.curXaId > 0 ==>
          if b.first.Some? then c.owner == b.first
          else c.owner.Some? ==> c.connected && c.owner.value == c.connectionId)
  }

  predicate OrdinaryOk(c: Conn) {
    (c.server == Open(PLAIN) <==> c.ordinary == Running) && (c.ordinary == Running ==> c.connected)
  }

  predicate QuietOk(c: Conn, b: Ballot, live: bool) {
    && c.task.NoTask? && !c.isXaPrepared && ServerFits(c, {NoTrx, Open(IdOf(c))})
    && (if live then Unasked(c, b) else c.curXaId == 0)
  }

  predicate Unasked(c: Conn, b: Ballot) {
    && !b.asked && !b.decided
    && (c.curXaId > 0 ==> b.stage.Begun? || (b.stage.Fresh? && !(c.connected && c.inTrans)))
  }

  predicate VotingOk(c: Conn, b: Ballot, live: bool) {
    && (if live then !b.decided && (c.curXaId == 0 ==> !b.asked) else c.curXaId == 0)
    && match c.task
       case EndThenPrepare =>
         InXa(c) && !c.isXaPrepared && b.stage.PrepareSent? && b.asked && c.server in {NoTrx, Open(IdOf(c))}
       case PrepareOnly(endFailed) =>
         && InXa(c) && !c.isXaPrepared && b.stage.PrepareSent? && b.asked
         && c.server in {NoTrx, Open(IdOf(c)), Ended(IdOf(c))} && (endFailed ==> !c.server.Ended?)
       case Settled(ok) =>
         if c.isXaPrepared then
           ok && InXa(c) && b.stage.PrepareSent? && b.asked && b.granted && c.server == Prepared(IdOf(c))
         else if c.curXaId == 0 then
           ok && ServerFits(c, {NoTrx, Open(PLAIN)})
         else if ok then
           Unasked(c, b) && !(c.connected && c.inTrans) && ServerFits(c, {NoTrx})
         else
           && c.connected && c.inTrans && (b.stage.Begun? || b.stage.PrepareSent?)
           && c.server in {NoTrx, Open(IdOf(c)), Ended(IdOf(c)), Prepared(IdOf(c))}
           && (c.server.Prepared? ==> c.broken)
       case _ => false
  }

  predicate UndoingOk(c: Conn, b: Ballot, failedVote: bool) {
    && (failedVote ==> !b.decided) && (c.atStake ==> c.ordinary != Durable)
    && match c.task
       case EndThenRollback =>
         InXa(c) && b.stage.RollbackSent? && c.server in {NoTrx, Open(IdOf(c)), Ended(IdOf(c))}
       case XaRollingBack =>
         && InXa(c) && b.stage.RollbackSent?
         && c.server in {NoTrx, Open(IdOf(c)), Ended(IdOf(c)), Prepared(IdOf(c))}
       case PlainRollingBack =>
         c.connected && !c.broken && c.curXaId == 0 && c.server in {NoTrx, Open(PLAIN)}
       case Settled(_) => Finished(c)
       case _ => false
  }

  /** No transaction is left: the server has none on a connection that is kept. */
  predicate Finished(c: Conn) {
    c.curXaId == 0 && !c.isXaPrepared && !c.pendingStart && (c.connected ==> c.server == NoTrx && !c.inTrans)
  }

  predicate DecidingOk(c: Conn, b: Ballot, x: nat, live: bool) {
    && (if live then b.asked ==> b.granted else c.curXaId == 0)
    && match c.task
       case XaCommitting =>
         && InXa(c) && c.isXaPrepared && b.stage.CommitSent? && b.asked && b.decided && x !in c.committed && !c.atStake
         && c.server in {NoTrx, Prepared(IdOf(c))}
       case XaUndoing =>
         && InXa(c) && c.isXaPrepared && b.stage.RollbackSent? && b.asked && x !in c.committed && !c.atStake
         && c.server in {NoTrx, Prepared(IdOf(c))}
       case PlainCommitting =>
         && c.connected && !c.broken && c.curXaId == 0 && c.server in {NoTrx, Open(PLAIN)} && (live ==> !b.asked)
         && c.inTrans && (c.atStake ==> c.ordinary == Running)
       case PlainUndoing =>
         && c.connected && !c.broken && c.curXaId == 0 && c.server in {NoTrx, Open(PLAIN)} && (live ==> !b.asked)
         && c.inTrans && (c.atStake ==> c.ordinary != Durable)
       case Settled(ok) =>
         && Finished(c) && (c.connected && c.atStake ==> (c.ordinary == Durable <==> ok))
         && (live && ok && b.asked ==> x in c.committed)
         && (live && !ok && b.asked && c.connected ==> x !in c.committed)
       case _ => false
  }

  /**
   What a connection sends is about the last transaction `x`, names it rightly, and fits what the session is doing.
   `failed` is the statement that was answered with an error just before.
   */
  ghost predicate Fitting(sent: seq<Stmt>, b: Ballot, on: nat, x: nat, act: Act, failed: Option<Stmt>) {
    && |sent| <= 2
    && (forall k :: 0 <= k < |sent| ==>
          match sent[k]
          case Start(id) => |sent| == 1 && id.x == x && Named(b, Sent(0, on, RoundOf(act), sent[k])) && act.Quietly?
          case XaPrepare(id) => id.x == x && b.first == Some(id.owner) && act == Voting(true)
          case XaCommit(id) => id.x == x && b.first == Some(id.owner) && act == Deciding(true)
          case XaEnd(id) => id.x == x && b.first == Some(id.owner) && !act.Quietly?
          case XaRollback(id) => id.x == x && b.first == Some(id.owner) && !act.Quietly?
          case PlainStart => act.Quietly?
          case PlainCommit => act.Deciding?
          case PlainRollback => act.Undoing? || (|sent| == 1 && failed == Some(PlainCommit)))
  }

  function RoundOf(act: Act): Option<Round> {
    match act
    case Quietly(_) => None
    case Voting(_) => Some(ToPrepare)
    case Undoing(_) => Some(ToRollback)
    case Deciding(_) => Some(ToCommit)
  }

  /** The connection became `d` and sent `sent`: this keeps the invariant, and is in turn. */
  ghost predicate Kept(c: Conn, b: Ballot, d: Conn, sent: seq<Stmt>, x: nat, act: Act, failed: Option<Stmt>) {
    && Fitting(sent, b, c.connectionId, x, act, failed) && ConnOk(d, MarkAll(b, c.connectionId, sent, x), x, act)
    && d.connectionId == c.connectionId && c.committed <= d.committed <= c.committed + {x}
  }

  lemma PrepareKeeps(c: Conn, b: Ballot, x: nat, live: bool)
    requires ConnOk(c, b, x, Quietly(live))
    ensures var (d, sent) := Began(c, ToPrepare);
      Kept(c, b, d, sent, x, Voting(live), None) && d.committed == c.committed
  {
  }

  lemma RollbackKeeps(c: Conn, b: Ballot, x: nat, act: Act, failedVote: bool)
    requires ConnOk(c, b, x, act)
    requires (act.Quietly? && !failedVote) || (act.Voting? && c.task.Settled? && (failedVote ==> act.live))
    ensures var (d, sent) := Began(c, ToRollback);
      Kept(c, b, d, sent, x, Undoing(failedVote), None) && d.committed == c.committed
  {
    hide ConnOk, Began, Kept;
    if act.Quietly? {
      QuietRollbackKeeps(c, b, x, act.live);
    } else {
      VotedRollbackKeeps(c, b, x, act.live, failedVote);
    }
  }

  lemma QuietRollbackKeeps(c: Conn, b: Ballot, x: nat, live: bool)
    requires ConnOk(c, b, x, Quietly(live))
    ensures var (d, sent) := Began(c, ToRollback);
      Kept(c, b, d, sent, x, Undoing(false), None) && d.committed == c.committed
  {
  }

  lemma VotedRollbackKeeps(c: Conn, b: Ballot, x: nat, live: bool, failedVote: bool)
    requires ConnOk(c, b, x, Voting(live)) && c.task.Settled? && (failedVote ==> live)
    ensures var (d, sent) := Began(c, ToRollback);
      Kept(c, b, d, sent, x, Undoing(failedVote), None) && d.committed == c.committed
  {
  }

  lemma CommitKeeps(c: Conn, b: Ballot, x: nat, live: bool)
    requires ConnOk(c, b, x, Voting(live)) && c.task == Settled(true)
    ensures var (d, sent) := Began(c, ToCommit);
      Kept(c, b, d, sent, x, Deciding(live), None) && d.committed == c.committed
  {
  }

  /** The ballot after an answer to the statement the connection waits for. */
  function Counted(c: Conn, b: Ballot, x: nat, a: Answer): Ballot
    requires Waiting(c.task)
  {
    var got := Got(0, Awaited(c), a.Success?);
    if Concerns(got, 0, x) then Note(b, got) else b
  }

  lemma CountedAnywhere(c: Conn, b: Ballot, x: nat, a: Answer, i: nat)
    requires Waiting(c.task)
    ensures var got := Got(i, Awaited(c), a.Success?);
      Counted(c, b, x, a) == if Concerns(got, i, x) then Note(b, got) else b
  {
  }

  function FailedOf(c: Conn, a: Answer): Option<Stmt>
    requires Waiting(c.task)
  {
    if a.Success? then None else Some(Awaited(c))
  }

  ghost predicate Resumed(c: Conn, b: Ballot, x: nat, act: Act, a: Answer)
    requires Waiting(c.task)
  {
    var (d, sent) := Resume(c, a);
    Kept(c, Counted(c, b, x, a), d, sent, x, act, FailedOf(c, a)) && d.atStake == c.atStake
  }

  lemma VotingResumes(c: Conn, b: Ballot, x: nat, live: bool, a: Answer)
    requires ConnOk(c, b, x, Voting(live)) && Waiting(c.task) && Possible(c.server, Awaited(c), a)
    ensures Resumed(c, b, x, Voting(live), a)
  {
  }

  lemma XaUndoingResumes(c: Conn, b: Ballot, x: nat, failedVote: bool, a: Answer)
    requires ConnOk(c, b, x, Undoing(failedVote)) && c.task.XaRollingBack? && Possible(c.server, Awaited(c), a)
    ensures Resumed(c, b, x, Undoing(failedVote), a)
  {
    hide Resumed, Possible, Awaited, ConnOk;
    match a {
      case Success => XaUndone(c, b, x, failedVote);
      case Failure(undone, retryable) => XaNotUndone(c, b, x, failedVote, undone, retryable);
      case Lost(done) => XaLost(c, b, x, failedVote, done);
    }
  }

  lemma XaUndone(c: Conn, b: Ballot, x: nat, failedVote: bool)
    requires ConnOk(c, b, x, Undoing(failedVote)) && c.task.XaRollingBack? && Possible(c.server, Awaited(c), Success)
    ensures Resumed(c, b, x, Undoing(failedVote), Success)
  {
  }

  lemma XaNotUndone(c: Conn, b: Ballot, x: nat, failedVote: bool, undone: bool, retryable: bool)
    requires ConnOk(c, b, x, Undoing(failedVote)) && c.task.XaRollingBack?
    ensures Resumed(c, b, x, Undoing(failedVote), Failure(undone, retryable))
  {
  }

  lemma XaLost(c: Conn, b: Ballot, x: nat, failedVote: bool, done: bool)
    requires ConnOk(c, b, x, Undoing(failedVote)) && c.task.XaRollingBack? && Possible(c.server, Awaited(c), Lost(done))
    ensures Resumed(c, b, x, Undoing(failedVote), Lost(done))
  {
  }

  lemma EndUndoingResumes(c: Conn, b: Ballot, x: nat, failedVote: bool, a: Answer)
    requires ConnOk(c, b, x, Undoing(failedVote)) && c.task.EndThenRollback? && Possible(c.server, Awaited(c), a)
    ensures Resumed(c, b, x, Undoing(failedVote), a)
  {
  }

  lemma PlainUndoingResumes(c: Conn, b: Ballot, x: nat, failedVote: bool, a: Answer)
    requires ConnOk(c, b, x, Undoing(failedVote)) && c.task.PlainRollingBack? && Possible(c.server, Awaited(c), a)
    ensures Resumed(c, b, x, Undoing(failedVote), a)
  {
  }

  lemma UndoingResumes(c: Conn, b: Ballot, x: nat, failedVote: bool, a: Answer)
    requires ConnOk(c, b, x, Undoing(failedVote)) && Waiting(c.task) && Possible(c.server, Awaited(c), a)
    ensures Resumed(c, b, x, Undoing(failedVote), a)
  {
    hide Resumed, Possible, Awaited;
    if c.task.XaRollingBack? {
      XaUndoingResumes(c, b, x, failedVote, a);
    } else if c.task.EndThenRollback? {
      EndUndoingResumes(c, b, x, failedVote, a);
    } else {
      PlainUndoingResumes(c, b, x, failedVote, a);
    }
  }

  lemma XaDecidingResumes(c: Conn, b: Ballot, x: nat, live: bool, a: Answer)
    requires ConnOk(c, b, x, Deciding(live)) && (c.task.XaCommitting? || c.task.XaUndoing?)
    requires Possible(c.server, Awaited(c), a)
    ensures Resumed(c, b, x, Deciding(live), a)
  {
    hide Resumed, Possible, Awaited, ConnOk;
    if c.task.XaCommitting? {
      XaCommittingResumes(c, b, x, live, a);
    } else {
      XaTakingBackResumes(c, b, x, live, a);
    }
  }

  lemma XaCommittingResumes(c: Conn, b: Ballot, x: nat, live: bool, a: Answer)
    requires ConnOk(c, b, x, Deciding(live)) && c.task.XaCommitting? && Possible(c.server, Awaited(c), a)
    ensures Resumed(c, b, x, Deciding(live), a)
  {
    hide Resumed, Possible, Awaited, ConnOk;
    match a {
      case Success => XaCommitSucceeds(c, b, x, live);
      case Failure(undone, retryable) => XaCommitFails(c, b, x, live, undone, retryable);
      case Lost(done) => XaCommitIsLost(c, b, x, live, done);
    }
  }

  lemma XaCommitSucceeds(c: Conn, b: Ballot, x: nat, live: bool)
    requires ConnOk(c, b, x, Deciding(live)) && c.task.XaCommitting? && Possible(c.server, Awaited(c), Success)
    ensures Resumed(c, b, x, Deciding(live), Success)
  {
  }

  lemma XaCommitFails(c: Conn, b: Ballot, x: nat, live: bool, undone: bool, retryable: bool)
    requires ConnOk(c, b, x, Deciding(live)) && c.task.XaCommitting?
    ensures Resumed(c, b, x, Deciding(live), Failure(undone, retryable))
  {
  }

  lemma XaCommitIsLost(c: Conn, b: Ballot, x: nat, live: bool, done: bool)
    requires ConnOk(c, b, x, Deciding(live)) && c.task.XaCommitting? && Possible(c.server, Awaited(c), Lost(done))
    ensures Resumed(c, b, x, Deciding(live), Lost(done))
  {
  }

  lemma XaTakingBackResumes(c: Conn, b: Ballot, x: nat, live: bool, a: Answer)
    requires ConnOk(c, b, x, Deciding(live)) && c.task.XaUndoing? && Possible(c.server, Awaited(c), a)
    ensures Resumed(c, b, x, Deciding(live), a)
  {
  }

  lemma PlainDecidingResumes(c: Conn, b: Ballot, x: nat, live: bool, a: Answer)
    requires ConnOk(c, b, x, Deciding(live)) && (c.task.PlainCommitting? || c.task.PlainUndoing?)
    requires Possible(c.server, Awaited(c), a)
    ensures Resumed(c, b, x, Deciding(live), a)
  {
    hide Resumed, Possible, Awaited, ConnOk;
    if c.task.PlainCommitting? {
      PlainCommittingResumes(c, b, x, live, a);
    } else {
      PlainTakingBackResumes(c, b, x, live, a);
    }
  }

  lemma PlainCommittingResumes(c: Conn, b: Ballot, x: nat, live: bool, a: Answer)
    requires ConnOk(c, b, x, Deciding(live)) && c.task.PlainCommitting? && Possible(c.server, Awaited(c), a)
    ensures Resumed(c, b, x, Deciding(live), a)
  {
    hide Resumed, Possible, Awaited, ConnOk;
    match a {
      case Success => PlainCommitSucceeds(c, b, x, live);
      case Failure(undone, retryable) => PlainCommitFails(c, b, x, live, undone, retryable);
      case Lost(done) => PlainCommitIsLost(c, b, x, live, done);
    }
  }

  lemma PlainCommitSucceeds(c: Conn, b: Ballot, x: nat, live: bool)
    requires ConnOk(c, b, x, Deciding(live)) && c.task.PlainCommitting? && Possible(c.server, Awaited(c), Success)
    ensures Resumed(c, b, x, Deciding(live), Success)
  {
  }

  lemma PlainCommitFails(c: Conn, b: Ballot, x: nat, live: bool, undone: bool, retryable: bool)
    requires ConnOk(c, b, x, Deciding(live)) && c.task.PlainCommitting?
    ensures Resumed(c, b, x, Deciding(live), Failure(undone, retryable))
  {
  }

  lemma PlainCommitIsLost(c: Conn, b: Ballot, x: nat, live: bool, done: bool)
    requires ConnOk(c, b, x, Deciding(live)) && c.task.PlainCommitting? && Possible(c.server, Awaited(c), Lost(done))
    ensures Resumed(c, b, x, Deciding(live), Lost(done))
  {
  }

  lemma PlainTakingBackResumes(c: Conn, b: Ballot, x: nat, live: bool, a: Answer)
    requires ConnOk(c, b, x, Deciding(live)) && c.task.PlainUndoing? && Possible(c.server, Awaited(c), a)
    ensures Resumed(c, b, x, Deciding(live), a)
  {
  }

  lemma DecidingResumes(c: Conn, b: Ballot, x: nat, live: bool, a: Answer)
    requires ConnOk(c, b, x, Deciding(live)) && Waiting(c.task) && Possible(c.server, Awaited(c), a)
    ensures Resumed(c, b, x, Deciding(live), a)
  {
    hide Resumed, Possible, Awaited;
    if c.task.XaCommitting? || c.task.XaUndoing? {
      XaDecidingResumes(c, b, x, live, a);
    } else {
      PlainDecidingResumes(c, b, x, live, a);
    }
  }
}
