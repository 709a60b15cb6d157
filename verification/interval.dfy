/** The timer that sets itself again after its callback is done. */
module Interval {
  datatype State = Terminated | Inactive | Active | Executing | ExecutingAndWantReexecute

  datatype Event = Starts(firstIterIsImmediate: bool) | Stops | Disposes | Fires | CallbackEnds

  // ---- what each event makes of the interval

  /** `nRunning` callbacks have begun and not ended, and `onEnd` tells that somebody waits for the disposal. */
  datatype Moment = Moment(state: State, onEnd: bool, nRunning: nat)
  {
    predicate IsExecuting() {
      state.Executing? || state.ExecutingAndWantReexecute?
    }

    /** The callbacks that the state knows about. */
    function Known(): nat {
      if IsExecuting() || (state.Terminated? && onEnd) then 1 else 0
    }
  }

  /** A timer can fire when one is set, and a callback can end when one runs; otherwise nothing happens. */
  function Next(m: Moment, e: Event): Moment {
    match e
    case Starts(immediate) =>
      m.(state := match m.state
         case Inactive => Active
         case Executing => if immediate then ExecutingAndWantReexecute else Executing
         case _ => m.state)
    case Stops => m.(state := if m.state.Terminated? then Terminated else Inactive)
    case Disposes => m.(state := Terminated, onEnd := m.onEnd || m.IsExecuting())
    case Fires => if m.state.Active? then m.(state := Executing, nRunning := m.nRunning + 1) else m
    case CallbackEnds =>
      if m.nRunning == 0 then m
      else if m.state.ExecutingAndWantReexecute? then m.(state := Executing)
      else
        m.(nRunning := m.nRunning - 1, onEnd := false, state := if m.state.Executing? then Active else m.state)
  }

  function After(events: seq<Event>): Moment {
    if events == [] then Moment(Inactive, false, 0) else Next(After(events[..|events| - 1]), events[|events| - 1])
  }

  /**
   The callbacks that the interval was stopped in the middle of, and that run on. When a callback ends that the state
   does not know about, it was one of these.
   */
  function Strays(events: seq<Event>): nat {
    if events == [] then 0
    else
      var before, e := events[..|events| - 1], events[|events| - 1];
      var m, n := After(before), Strays(before);
      if e.Stops? && m.IsExecuting() then n + 1
      else if e.CallbackEnds? && m.Known() == 0 && n > 0 then n - 1
      else n
  }

  lemma {:induction false} AllAccounted(events: seq<Event>)
    ensures After(events).nRunning == After(events).Known() + Strays(events)
    ensures After(events).onEnd ==> After(events).state.Terminated?
  {
    if events != [] {
      AllAccounted(events[..|events| - 1]);
    }
  }

  /**
   The interval is disposed of after `before`. What the disposal waits for is all that runs, if and only if no callback
   runs that the interval was stopped in the middle of.
   */
  lemma DisposalWaitsForAll(before: seq<Event>)
    requires !After(before).state.Terminated?
    ensures var m := After(before + [Disposes]);
      (m.nRunning == if m.onEnd then 1 else 0) <==> Strays(before) == 0
  {
    AllAccounted(before);
    assert (before + [Disposes])[..|before|] == before;
  }

  /** So it is, if each stop came while no callback was running. */
  lemma {:induction false} NoStrays(events: seq<Event>)
    requires forall k :: 0 <= k < |events| && events[k].Stops? ==> !After(events[..k]).IsExecuting()
    ensures Strays(events) == 0
  {
    if events != [] {
      var before := events[..|events| - 1];
      forall k | 0 <= k < |before| && before[k].Stops?
        ensures !After(before[..k]).IsExecuting()
      {
        assert before[..k] == events[..k];
      }
      NoStrays(before);
    }
  }

  /** Started, and not stopped or disposed of since: a timer is set, or a callback runs that will set it again. */
  lemma {:induction false} StaysActive(before: seq<Event>, immediate: bool, since: seq<Event>)
    requires !After(before).state.Terminated? && forall e :: e in since ==> !e.Stops? && !e.Disposes?
    ensures var m := After(before + [Starts(immediate)] + since); m.state.Active? || m.IsExecuting()
  {
    var events := before + [Starts(immediate)] + since;
    if since == [] {
      assert events == before + [Starts(immediate)] && events[..|before|] == before;
    } else {
      var init := since[..|since| - 1];
      StaysActive(before, immediate, init);
      assert events[..|events| - 1] == before + [Starts(immediate)] + init;
      assert since[|since| - 1] in since;
    }
  }

  class Interval {
    var state: State
    var hTimer: nat
    /** Somebody waits for `asyncDispose()`. */
    var onEnd: bool
    /** The timers that are set, and the callbacks that have begun and not ended. */
    var timers: set<nat>
    var nRunning: nat

    /** A timer is set exactly when the state is Active, and it is the one that can be cleared. */
    ghost predicate Valid()
      reads this
    {
      timers == (if state.Active? then {hTimer} else {}) && (onEnd ==> state.Terminated?)
    }

    function Now(): Moment
      reads this
    {
      Moment(state, onEnd, nRunning)
    }

    /** One callback at most, and the state knows about it. */
    predicate Tidy()
      reads this
    {
      nRunning == Now().Known()
    }

    constructor ()
      ensures Valid() && Tidy() && Now() == After([])
    {
      state, hTimer, onEnd, timers, nRunning := Inactive, 0, false, {}, 0;
    }

    method SetTimer()
      modifies this`hTimer, this`timers
      ensures hTimer == old(hTimer) + 1 && timers == old(timers) + {hTimer}
    {
      hTimer := hTimer + 1;
      timers := timers + {hTimer};
    }

    method ClearTimer()
      modifies this`timers
      ensures timers == old(timers) - {hTimer}
    {
      timers := timers - {hTimer};
    }

    method Start(firstIterIsImmediate: bool)
      requires Valid()
      modifies this
      ensures Valid() && Now() == Next(old(Now()), Starts(firstIterIsImmediate))
      ensures old(Tidy()) ==> Tidy()
      decreases state.Active?
    {
      if state.Inactive? {
        state := Active;
        SetTimer();
      } else if firstIterIsImmediate {
        if state.Executing? {
          state := ExecutingAndWantReexecute;
        } else if state.Active? {
          state := Inactive;
          ClearTimer();
          Start(true);
        }
      }
    }

    /** To stop it while the callback runs leaves a callback that the state does not know about. */
    method Stop()
      requires Valid()
      modifies this
      ensures Valid() && Now() == Next(old(Now()), Stops)
      ensures old(Tidy()) ==> (Tidy() <==> !old(Now()).IsExecuting())
    {
      if !state.Terminated? {
        state := Inactive;
        ClearTimer();
      }
    }

    /** `done`: there is nothing to wait for. */
    method Dispose() returns (done: bool)
      requires Valid()
      modifies this
      ensures Valid() && Now() == Next(old(Now()), Disposes) && timers == {}
      ensures (done <==> !old(Now()).IsExecuting()) && (old(Tidy()) ==> Tidy())
      ensures !old(state).Terminated? ==> (old(Tidy()) <==> nRunning == if done then 0 else 1)
    {
      done := !Now().IsExecuting();
      onEnd := onEnd || !done;
      state := Terminated;
      ClearTimer();
    }

    /** The time has come: the callback begins. */
    method Fire(h: nat)
      requires Valid() && h in timers
      modifies this
      ensures Valid() && Now() == Next(old(Now()), Fires) && state == Executing && timers == {}
      ensures (old(Tidy()) <==> nRunning == 1) && (old(Tidy()) ==> Tidy())
    {
      timers := timers - {h};
      if state.Active? {
        state := Executing;
        nRunning := nRunning + 1;
      }
    }

    /**
     A callback has ended: it begins again, or the timer is set again; `resolved`: the wait of `asyncDispose()` is
     over.
     */
    method CallbackEnd() returns (resolved: bool)
      requires Valid() && nRunning > 0
      modifies this
      ensures Valid() && Now() == Next(old(Now()), CallbackEnds)
      ensures (resolved <==> old(state).Terminated? && old(onEnd)) && onEnd == (old(onEnd) && !resolved)
      ensures old(Tidy()) ==> Tidy()
      ensures resolved ==> (old(Tidy()) <==> nRunning == 0)
    {
      resolved := false;
      if state.ExecutingAndWantReexecute? {
        state := Executing;
        return;
      }
      nRunning := nRunning - 1;
      if state.Terminated? {
        resolved := onEnd;
        onEnd := false;
      } else if state.Executing? {
        state := Inactive;
        Start(false);
      }
    }
  }

  /**
   Any run: it goes as `After` says, never more than one timer is set, and once disposed of, the interval stays so
   and sets none. It is tidy (at most one callback runs, and the state knows it, so that a disposal waits for it) if and
   only if no callback runs that it was stopped in the middle of; and so if it was never stopped while one was running.
   */
  method Run(events: seq<Event>) returns (v: Interval)
    ensures fresh(v) && v.Valid() && |v.timers| <= 1 && v.Now() == After(events)
    ensures v.Tidy() <==> Strays(events) == 0
    ensures (forall k :: 0 <= k < |events| && events[k].Stops? ==> !After(events[..k]).IsExecuting()) ==> v.Tidy()
    ensures (exists k :: 0 <= k < |events| && events[k].Disposes?) ==> v.state.Terminated? && v.timers == {}
  {
    v := new Interval();
    for k := 0 to |events|
      invariant fresh(v) && v.Valid() && v.Now() == After(events[..k])
      invariant (exists j :: 0 <= j < k && events[j].Disposes?) ==> v.state.Terminated?
    {
      assert events[..k + 1][..k] == events[..k];
      match events[k] {
        case Starts(now) => v.Start(now);
        case Stops => v.Stop();
        case Disposes => var _ := v.Dispose();
        case Fires =>
          if v.state.Active? { v.Fire(v.hTimer); }
        case CallbackEnds =>
          if v.nRunning > 0 { var _ := v.CallbackEnd(); }
      }
    }
    assert events[..|events|] == events;
    AllAccounted(events);
    if forall k :: 0 <= k < |events| && events[k].Stops? ==> !After(events[..k]).IsExecuting() {
      NoStrays(events);
    }
  }

  /**
   Stopped and started again while its callback runs, it runs two at once, and `asyncDispose()` waits for one of them
   only.
   */
  method StoppedInCallback() returns (v: Interval)
    ensures fresh(v) && v.Valid() && v.state.Terminated? && !v.onEnd && v.nRunning == 1
  {
    v := new Interval();
    v.Start(false);
    v.Fire(v.hTimer);
    v.Stop();
    v.Start(false);
    v.Fire(v.hTimer);
    var done := v.Dispose();
    assert !done;
    var resolved := v.CallbackEnd();
    assert resolved;
  }
}
