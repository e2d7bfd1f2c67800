/** The shutdown controller: `signal_handler`, `set_abort` and the two
    module-level flags they write. The first SIGINT/SIGTERM starts one abort
    timer and sets `shutting_down`; later signals do nothing; the timer, when
    it runs, sets `abort`, which the event loop reads once per iteration. */
module Shutdown {

  /** What can happen to the controller: a signal is delivered, or the abort
      timer runs `set_abort`. */
  datatype Event = Signal | TimerFired

  /** The two flags, with the number of abort timers started and the number
      of them that have run. */
  datatype Flags = Flags(shuttingDown: bool, abort: bool, timersStarted: nat, timersFired: nat)

  /** The flags at process start. */
  const Initial: Flags := Flags(false, false, 0, 0)

  /** A timer has been started and has not run yet. */
  predicate TimerPending(f: Flags)
  {
    f.timersFired < f.timersStarted
  }

  /** The flags of a controller that has started at most one timer, set
      `shutting_down` exactly when it did, and set `abort` exactly when that
      timer ran. */
  predicate Consistent(f: Flags)
  {
    && f.timersFired <= f.timersStarted <= 1
    && (f.shuttingDown <==> f.timersStarted == 1)
    && (f.abort <==> f.timersFired == 1)
  }

  /** One event. A signal while not yet shutting down starts the timer and
      sets `shutting_down`; a signal while shutting down is only logged. The
      timer sets `abort`; a timer that was never started cannot run, so that
      event changes nothing. */
  function Step(f: Flags, e: Event): (g: Flags)
    ensures Consistent(f) ==> Consistent(g)
    ensures f.shuttingDown ==> g.shuttingDown
    ensures f.abort ==> g.abort
    ensures Consistent(f) && g.abort && !f.abort ==> e == TimerFired && f.shuttingDown
  {
    match e
    case Signal =>
      if !f.shuttingDown then f.(timersStarted := f.timersStarted + 1, shuttingDown := true)
      else f
    case TimerFired =>
      if TimerPending(f) then f.(abort := true, timersFired := f.timersFired + 1)
      else f
  }

  /** The flags after the events `events`, in order, from process start. */
  function Run(events: seq<Event>): Flags
  {
    if events == [] then Initial
    else Step(Run(events[..|events| - 1]), events[|events| - 1])
  }

  /** Running a trace one event longer is one more step. */
  lemma RunSnoc(events: seq<Event>, e: Event)
    ensures Run(events + [e]) == Step(Run(events), e)
  {
    assert (events + [e])[..|events|] == events;
  }

  /** Whatever the signals and timer runs, `shutting_down` is set exactly when
      some signal arrived, and then exactly one timer was started. */
  lemma {:induction false} RunSignals(events: seq<Event>)
    ensures Consistent(Run(events))
    ensures Run(events).shuttingDown <==> Signal in events
    ensures Run(events).timersStarted == if Signal in events then 1 else 0
  {
    if events != [] {
      var front := events[..|events| - 1];
      RunSignals(front);
      assert events == front + [events[|events| - 1]];
    }
  }

  /** `abort` is set exactly when a timer run follows some signal: it can
      only come from the timer that the first signal started. */
  lemma {:induction false} AbortOnlyThroughTimer(events: seq<Event>)
    ensures Run(events).abort <==>
      exists j :: 0 <= j < |events| && events[j] == TimerFired && Signal in events[..j]
  {
    if events != [] {
      var n := |events| - 1;
      var front := events[..n];
      AbortOnlyThroughTimer(front);
      RunSignals(front);
      assert events == front + [events[n]];
      if Run(events).abort {
        if !Run(front).abort {
          assert events[n] == TimerFired && Signal in events[..n];
        } else {
          var j :| 0 <= j < |front| && front[j] == TimerFired && Signal in front[..j];
          assert events[..j] == front[..j];
        }
      }
    }
  }

  /** The flags never revert: whatever was set after a prefix of the events
      is still set after all of them, and no timer is ever un-started. */
  lemma {:induction false} RunMonotone(events: seq<Event>, k: nat)
    requires k <= |events|
    ensures Run(events[..k]).shuttingDown ==> Run(events).shuttingDown
    ensures Run(events[..k]).abort ==> Run(events).abort
    ensures Run(events[..k]).timersStarted <= Run(events).timersStarted
    decreases |events| - k
  {
    if k < |events| {
      var n := |events| - 1;
      assert events[..n][..k] == events[..k];
      RunMonotone(events[..n], k);
      RunSignals(events[..n]);
      RunSignals(events);
    } else {
      assert events[..k] == events;
    }
  }

  /** Debouncing: once a signal has arrived, another one changes nothing, so
      the abort still comes from the first signal's timer. */
  lemma RepeatedSignalIgnored(events: seq<Event>)
    requires Signal in events
    ensures Run(events + [Signal]) == Run(events)
  {
    RunSnoc(events, Signal);
    RunSignals(events);
  }

  /** The controller's state: the module-level flags of the source, with the
      timers it has started and run made visible. */
  class Controller {
    var shuttingDown: bool
    var abort: bool
    var timersStarted: nat
    var timersFired: nat

    function State(): Flags
      reads this
    {
      Flags(shuttingDown, abort, timersStarted, timersFired)
    }

    constructor ()
      ensures State() == Initial
    {
      shuttingDown, abort := false, false;
      timersStarted, timersFired := 0, 0;
    }

    /** `signal_handler`: the first call starts the abort timer and sets
        `shutting_down`; every later call only logs. */
    method SignalHandler()
      modifies this
      ensures State() == Step(old(State()), Signal)
    {
      if !shuttingDown {
        timersStarted := timersStarted + 1;
        shuttingDown := true;
      }
    }

    /** `set_abort`, run by the timer that `SignalHandler` started. */
    method SetAbort()
      requires TimerPending(State())
      modifies this
      ensures State() == Step(old(State()), TimerFired)
    {
      abort := true;
      timersFired := timersFired + 1;
    }

    /** Delivers one event: a signal to the handler, a timer run to
        `SetAbort` when a timer is pending. */
    method Deliver(e: Event)
      modifies this
      ensures State() == Step(old(State()), e)
    {
      match e {
        case Signal => SignalHandler();
        case TimerFired =>
          if TimerPending(State()) {
            SetAbort();
          }
      }
    }

    /** Delivers `events` in order, after a history `prior`. */
    method DeliverAll(ghost prior: seq<Event>, events: seq<Event>)
      requires State() == Run(prior)
      modifies this
      ensures State() == Run(prior + events)
    {
      assert prior + events[..0] == prior;
      for j := 0 to |events|
        invariant State() == Run(prior + events[..j])
      {
        assert prior + events[..j + 1] == (prior + events[..j]) + [events[j]];
        RunSnoc(prior + events[..j], events[j]);
        Deliver(events[j]);
      }
      assert events[..|events|] == events;
    }
  }
}
