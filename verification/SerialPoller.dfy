/** The serial poll loop: timers, one active iteration, pause, resume and close. The event loop is part of
    the state: `pending` holds the timers it will still fire and `running` the iterations not yet ended,
    while `timer` and `active` are what the poller remembers of them. */
module SerialPoller {
  import opened Outcomes

  /** `starting` is the iteration whose work has begun but not yet reached its first wait; the poller
      remembers it in `active` only then. */
  datatype State = State(
    timer: Option<nat>, active: Option<nat>, stopped: bool, paused: bool, starting: Option<nat>, pending: set<nat>,
    running: set<nat>, next: nat)

  /** A call by the owner, which may come from inside an iteration, or the event loop firing a timer, the
      iteration reaching its first wait, failing before it, or ending. */
  datatype Event = Start | Pause | Resume | Close | Fire(timer: nat) | Wait | Fail | End(iteration: nat)

  const INITIAL: State := State(None, None, true, false, None, {}, {}, 0)

  function One(x: Option<nat>): set<nat> { if x.Some? then {x.value} else {} }

  function Schedule(s: State): State {
    if s.stopped || s.paused then s else s.(timer := Some(s.next), pending := s.pending + {s.next}, next := s.next + 1)
  }

  function ClearTimer(s: State): State {
    s.(timer := None, pending := if s.timer.Some? then s.pending - {s.timer.value} else s.pending)
  }

  function Step(s: State, e: Event): State {
    match e
    case Start => if !s.stopped then s else Schedule(s.(stopped := false, paused := false))
    case Pause => if s.stopped || s.paused then s else ClearTimer(s.(paused := true))
    case Resume => if s.stopped || !s.paused then s else Schedule(s.(paused := false))
    case Close => ClearTimer(s.(stopped := true, paused := true))
    case Fire(t) =>
      if t !in s.pending || s.starting.Some? then s
      else s.(timer := None, pending := s.pending - {t}, starting := Some(s.next), running := s.running + {s.next}, next := s.next + 1)
    case Wait => if s.starting.None? then s else s.(active := s.starting, starting := None)
    case Fail =>
      // The next timer is set before the poller remembers the iteration, which is over by then.
      if s.starting.None? then s
      else Schedule(s.(starting := None, running := s.running - One(s.starting))).(active := s.starting)
    case End(r) =>
      if r !in s.running || s.starting.Some? then s else Schedule(s.(active := None, running := s.running - {r}))
  }

  function Run(s: State, events: seq<Event>): State {
    if events == [] then s else Step(Run(s, events[..|events| - 1]), events[|events| - 1])
  }

  /** The class keeps the fields of the poller and of the event loop. */
  class Poller {
    var timer: Option<nat>
    var active: Option<nat>
    var stopped: bool
    var paused: bool
    var starting: Option<nat>
    var pending: set<nat>
    var running: set<nat>
    var next: nat

    constructor ()
      ensures Now() == INITIAL
    {
      timer, active, stopped, paused, starting, pending, running, next := None, None, true, false, None, {}, {}, 0;
    }

    ghost function Now(): State
      reads this
    {
      State(timer, active, stopped, paused, starting, pending, running, next)
    }

    method ScheduleNext()
      modifies this
      ensures Now() == Schedule(old(Now()))
    {
      if stopped || paused { return; }
      timer := Some(next);
      pending := pending + {next};
      next := next + 1;
    }

    method StartPolling()
      modifies this
      ensures Now() == Step(old(Now()), Start)
    {
      if !stopped { return; }
      stopped := false;
      paused := false;
      ScheduleNext();
    }

    /** Returns the iteration that the caller then waits for. */
    method PausePolling() returns (awaited: Option<nat>)
      modifies this
      ensures Now() == Step(old(Now()), Pause)
      ensures awaited == if old(stopped) || old(paused) then None else old(active)
    {
      if stopped || paused { return None; }
      paused := true;
      if timer.Some? { pending := pending - {timer.value}; }
      timer := None;
      awaited := active;
    }

    method ResumePolling()
      modifies this
      ensures Now() == Step(old(Now()), Resume)
    {
      if stopped || !paused { return; }
      paused := false;
      ScheduleNext();
    }

    method ClosePolling() returns (awaited: Option<nat>)
      modifies this
      ensures Now() == Step(old(Now()), Close) && awaited == old(active)
    {
      stopped := true;
      paused := true;
      if timer.Some? { pending := pending - {timer.value}; }
      timer := None;
      awaited := active;
    }

    /** The timer callback, up to the first wait of the iteration it begins. */
    method TimerFires(t: nat)
      requires t in pending && starting.None?
      modifies this
      ensures Now() == Step(old(Now()), Fire(t))
    {
      timer := None;
      pending := pending - {t};
      running := running + {next};
      starting := Some(next);
      next := next + 1;
    }

    /** The rest of the callback: the iteration is remembered. */
    method IterationWaits()
      requires starting.Some?
      modifies this
      ensures Now() == Step(old(Now()), Wait)
    {
      active := starting;
      starting := None;
    }

    /** The rest of the callback when the work throws before its first wait: the iteration ends at once. */
    method IterationFails()
      requires starting.Some?
      modifies this
      ensures Now() == Step(old(Now()), Fail)
    {
      var failed := starting;
      starting := None;
      running := running - {failed.value};
      active := None;
      ScheduleNext();
      active := failed;
    }

    /** The end of an iteration, after success or a reported error. */
    method IterationEnds(r: nat)
      requires r in running && starting.None?
      modifies this
      ensures Now() == Step(old(Now()), End(r))
    {
      running := running - {r};
      active := None;
      ScheduleNext();
    }
  }

  // ---- serial runs -----------------------------------------------------------------------------

  /** At most one iteration, at most one timer, never both. */
  ghost predicate Serial(s: State) { |s.pending| + |s.running| <= 1 }

  /** The poller remembers what the event loop holds, apart from an iteration that is just starting; what it
      remembers as active may be over already. The event loop holds one timer or one iteration whenever the
      poller is started and not paused. */
  ghost predicate Invariant(s: State) {
    && s.pending == One(s.timer)
    && (if s.starting.Some? then s.running == One(s.starting) else s.running <= One(s.active))
    && !(s.timer.Some? && s.running != {})
    && (s.stopped || s.paused ==> s.timer.None?)
    && (!s.stopped && !s.paused ==> s.timer.Some? || s.running != {})
    && (s.active.Some? ==> s.active.value < s.next)
    && (s.starting.Some? ==> s.active != s.starting)
    && (forall i :: i in s.pending || i in s.running ==> i < s.next)
  }

  /** The event is a start or resume that has an effect. */
  predicate Revives(s: State, e: Event) {
    (e == Start && s.stopped) || (e == Resume && !s.stopped && s.paused)
  }

  /** The caller's rule: start and resume take effect only when no iteration runs. */
  ghost predicate Allowed(s: State, e: Event) { Revives(s, e) ==> s.running == {} }

  ghost predicate RuleKept(s: State, events: seq<Event>) {
    forall i :: 0 <= i < |events| ==> Allowed(Run(s, events[..i]), events[i])
  }

  lemma StepInvariant(s: State, e: Event)
    requires Invariant(s) && Allowed(s, e)
    ensures Invariant(Step(s, e)) && Serial(Step(s, e))
  {
    hide Invariant, Serial;
    match e {
      case Start => ReviveInvariant(s, e);
      case Resume => ReviveInvariant(s, e);
      case Pause => QuietInvariant(s, e);
      case Close => QuietInvariant(s, e);
      case Fire(t) => FireInvariant(s, t);
      case Wait => WaitInvariant(s);
      case Fail => FailInvariant(s);
      case End(r) => EndInvariant(s, r);
    }
    InvariantSerial(Step(s, e));
  }

  lemma InvariantSerial(s: State)
    ensures Invariant(s) ==> Serial(s)
  {
    assert s.running <= One(s.active) ==> s.running == {} || s.running == One(s.active);
  }

  lemma ReviveInvariant(s: State, e: Event)
    requires Invariant(s) && Allowed(s, e) && (e == Start || e == Resume)
    ensures Invariant(Step(s, e))
  {
  }

  lemma QuietInvariant(s: State, e: Event)
    requires Invariant(s) && (e == Pause || e == Close)
    ensures Invariant(Step(s, e))
  {
  }

  lemma FireInvariant(s: State, t: nat)
    requires Invariant(s)
    ensures Invariant(Step(s, Fire(t)))
  {
  }

  lemma WaitInvariant(s: State)
    requires Invariant(s)
    ensures Invariant(Step(s, Wait))
  {
  }

  lemma FailInvariant(s: State)
    requires Invariant(s)
    ensures Invariant(Step(s, Fail))
  {
  }

  lemma EndInvariant(s: State, r: nat)
    requires Invariant(s)
    ensures Invariant(Step(s, End(r)))
  {
  }

  /** Reviving beside a running iteration puts a new timer beside it. */
  lemma RevivedBesideRunning(s: State, e: Event)
    requires Invariant(s) && !Allowed(s, e)
    ensures var r := Step(s, e);
      s.next in r.pending && s.next !in r.running && r.next == s.next + 1 && r.running == s.running != {} && !Serial(r)
      && s.next + 1 !in r.running && r.starting == s.starting
  {
    var r := Step(s, e);
    Positive(r.pending, s.next);
    var x :| x in s.running;
    Positive(r.running, x);
  }

  lemma Positive(s: set<nat>, x: nat)
    requires x in s
    ensures |s| >= 1
  {
  }

  lemma {:induction false} RunInvariant(events: seq<Event>)
    requires RuleKept(INITIAL, events)
    ensures Invariant(Run(INITIAL, events)) && Serial(Run(INITIAL, events))
  {
    hide Step, Invariant, Serial, Allowed;
    if events == [] {
      assert Invariant(INITIAL) && Serial(INITIAL) by { InitialInvariant(); }
    } else {
      var n := |events| - 1;
      assert forall i :: 0 <= i < n ==> events[..n][..i] == events[..i] && events[..n][i] == events[i];
      RunInvariant(events[..n]);
      StepInvariant(Run(INITIAL, events[..n]), events[n]);
    }
  }

  lemma InitialInvariant()
    ensures Invariant(INITIAL) && Serial(INITIAL)
  {
  }

  lemma PrefixKeepsRule(events: seq<Event>, i: nat)
    requires i <= |events| && forall j :: 0 <= j < i ==> Allowed(Run(INITIAL, events[..j]), events[j])
    ensures RuleKept(INITIAL, events[..i])
  {
    hide Allowed, Run;
    assert forall j :: 0 <= j < i ==> events[..i][..j] == events[..j] && events[..i][j] == events[j];
  }

  /** The first event that breaks the rule, and the state before it. */
  lemma FirstBreak(events: seq<Event>) returns (i: nat)
    requires !RuleKept(INITIAL, events)
    ensures i < |events| && Invariant(Run(INITIAL, events[..i])) && !Allowed(Run(INITIAL, events[..i]), events[i])
    ensures Run(INITIAL, events[..i + 1]) == Step(Run(INITIAL, events[..i]), events[i])
  {
    hide Step, Serial, Allowed, Invariant;
    i := FirstViolation(events);
    PrefixKeepsRule(events, i);
    RunInvariant(events[..i]);
    assert events[..i + 1][..i] == events[..i] && events[..i + 1][i] == events[i];
  }

  /** At most one iteration or timer, never both, in every state of a run exactly when the caller keeps the
      rule. */
  lemma {:induction false} SerialExactly(events: seq<Event>)
    ensures RuleKept(INITIAL, events) <==> forall i :: 0 <= i <= |events| ==> Serial(Run(INITIAL, events[..i]))
  {
    hide Step, Serial, Allowed, Invariant;
    if RuleKept(INITIAL, events) {
      forall i | 0 <= i <= |events| ensures Serial(Run(INITIAL, events[..i])) {
        PrefixKeepsRule(events, i);
        RunInvariant(events[..i]);
      }
    } else {
      var i := FirstBreak(events);
      RevivedBesideRunning(Run(INITIAL, events[..i]), events[i]);
    }
  }

  /** The state when the timer fires next, once a starting iteration waits. */
  function FiredNext(s: State, t: nat): State { Step(Step(s, Wait), Fire(t)) }

  /** No timer that fires next, at any point of the run, makes iterations overlap: exactly when the caller
      keeps the rule. */
  lemma {:induction false} OverlapExactly(events: seq<Event>)
    ensures RuleKept(INITIAL, events) <==>
            forall i, t :: 0 <= i <= |events| ==> |FiredNext(Run(INITIAL, events[..i]), t).running| <= 1
  {
    hide Step, Serial, Allowed, Invariant, FiredNext;
    if RuleKept(INITIAL, events) {
      forall i, t | 0 <= i <= |events| ensures |FiredNext(Run(INITIAL, events[..i]), t).running| <= 1 {
        PrefixKeepsRule(events, i);
        RunInvariant(events[..i]);
        NextIsAlone(Run(INITIAL, events[..i]), t);
      }
    } else {
      var i := FirstBreak(events);
      var s := Run(INITIAL, events[..i]);
      RevivedBesideRunning(s, events[i]);
      NextOverlaps(Step(s, events[i]), s.next);
    }
  }

  lemma NextIsAlone(s: State, t: nat)
    requires Invariant(s)
    ensures |FiredNext(s, t).running| <= 1
  {
    hide Step, Invariant;
    StepInvariant(s, Wait);
    StepInvariant(Step(s, Wait), Fire(t));
  }

  lemma NextOverlaps(s: State, t: nat)
    requires t in s.pending && s.running != {} && s.next !in s.running
    ensures |FiredNext(s, t).running| >= 2
  {
    var r := FiredNext(s, t);
    assert r.running == s.running + {s.next};
    var x :| x in s.running;
    Positive(s.running, x);
  }

  lemma {:induction false} FirstViolation(events: seq<Event>) returns (i: nat)
    requires !RuleKept(INITIAL, events)
    ensures i < |events| && !Allowed(Run(INITIAL, events[..i]), events[i])
    ensures forall j :: 0 <= j < i ==> Allowed(Run(INITIAL, events[..j]), events[j])
  {
    hide Step, Allowed;
    i := 0;
    while Allowed(Run(INITIAL, events[..i]), events[i])
      invariant i < |events|
      invariant forall j :: 0 <= j < i ==> Allowed(Run(INITIAL, events[..j]), events[j])
      decreases |events| - i
    {
      i := i + 1;
    }
  }

  /** Under the rule a started poller that is not paused never goes quiet. */
  lemma NeverQuiet(events: seq<Event>)
    requires RuleKept(INITIAL, events)
    ensures var s := Run(INITIAL, events); !s.stopped && !s.paused ==> |s.pending| + |s.running| == 1
  {
    hide Run;
    RunInvariant(events);
  }

  // ---- closing ---------------------------------------------------------------------------------

  ghost predicate NoStart(events: seq<Event>) { forall i :: 0 <= i < |events| ==> events[i] != Start }

  /** From a closed state on, without a start, no timer is pending and no iteration begins. */
  lemma {:induction false} ClosedStays(s: State, events: seq<Event>)
    requires Invariant(s) && s.stopped && NoStart(events)
    ensures var r := Run(s, events); r.stopped && Invariant(r) && r.pending == {} && r.running <= s.running
  {
    hide Step, Invariant;
    if events == [] {
      ClosedHasNoTimer(s);
    } else {
      var n := |events| - 1;
      assert events == events[..n] + [events[n]];
      ClosedStays(s, events[..n]);
      StepInvariant(Run(s, events[..n]), events[n]);
      ClosedStep(Run(s, events[..n]), events[n]);
    }
  }

  lemma ClosedHasNoTimer(s: State)
    requires Invariant(s) && s.stopped
    ensures s.pending == {}
  {
  }

  lemma ClosedStep(s: State, e: Event)
    requires Invariant(s) && s.stopped && e != Start
    ensures var r := Step(s, e); r.stopped && r.pending == {} && r.running <= s.running
  {
  }

  /** The iteration that a close in state `s` waits for, if any, has ended. */
  predicate Resolved(s: State, later: State) { s.active.None? || s.active.value !in later.running }

  /** After a close no timer is pending and no iteration begins until start; once it has resolved nothing
      runs, unless it was called by an iteration before its first wait. */
  lemma CloseIsFinal(before: seq<Event>, after: seq<Event>)
    requires RuleKept(INITIAL, before) && NoStart(after)
    ensures var s := Run(INITIAL, before);
      var r := Run(Step(s, Close), after);
      && r.pending == {} && r.stopped && r.running <= s.running
      && (Resolved(s, r) && s.starting.None? ==> r.running == {})
  {
    hide Run;
    RunInvariant(before);
    var s := Run(INITIAL, before);
    StepInvariant(s, Close);
    ClosedStays(Step(s, Close), after);
  }

  /** Close waits for whatever runs exactly when it is not called by an iteration before its first wait. */
  lemma CloseWaitsExactly(before: seq<Event>)
    requires RuleKept(INITIAL, before)
    ensures var s := Run(INITIAL, before);
      s.starting.None? <==>
        forall after :: NoStart(after) && Resolved(s, Run(Step(s, Close), after)) ==> Run(Step(s, Close), after).running == {}
  {
    hide Run;
    var s := Run(INITIAL, before);
    RunInvariant(before);
    if s.starting.None? {
      forall after | NoStart(after) && Resolved(s, Run(Step(s, Close), after)) ensures Run(Step(s, Close), after).running == {} {
        CloseIsFinal(before, after);
      }
    } else {
      RunNothing(Step(s, Close));
      assert Resolved(s, Run(Step(s, Close), [])) && s.starting.value in Run(Step(s, Close), []).running;
    }
  }

  lemma {:induction false} StrandedStays(s: State, events: seq<Event>)
    requires s.stopped && s.pending == {} && NoStart(events)
    ensures var r := Run(s, events); r.stopped && r.pending == {} && r.running <= s.running
  {
    if events != [] {
      var n := |events| - 1;
      assert events == events[..n] + [events[n]];
      StrandedStays(s, events[..n]);
    }
  }

  /** In any state, kept to the rule or not: no iteration begins after a close exactly when the only timer
      pending is the one the poller remembers. */
  lemma NothingStartsExactly(s: State)
    requires s.next !in s.running
    ensures s.pending <= One(s.timer) <==>
            forall after :: NoStart(after) ==> Run(Step(s, Close), after).running <= s.running
  {
    hide Run;
    var closed := Step(s, Close);
    if s.pending <= One(s.timer) {
      assert closed.pending == {};
      forall after | NoStart(after) ensures Run(closed, after).running <= s.running { StrandedStays(closed, after); }
    } else {
      var t :| t in s.pending && t !in One(s.timer);
      RunNothing(closed);
      UnfoldOne(closed, [], Wait);
      UnfoldOne(closed, [] + [Wait], Fire(t));
      var after := [] + [Wait] + [Fire(t)];
      assert NoStart(after);
      assert s.next in Run(closed, after).running;
    }
  }

  lemma UnfoldOne(s: State, events: seq<Event>, e: Event)
    ensures Run(s, events + [e]) == Step(Run(s, events), e)
  {
    assert (events + [e])[..|events|] == events;
  }

  lemma RunNothing(s: State)
    ensures Run(s, []) == s
  {
  }

  // ---- runs that break the rule ----------------------------------------------------------------

  /** Pausing and resuming while an iteration runs. */
  const RESUMED: seq<Event> := [Start, Fire(0), Wait, Pause, Resume]

  lemma ResumedState()
    ensures Run(INITIAL, RESUMED) == State(Some(2), Some(1), false, false, None, {2}, {1}, 3)
  {
    hide Run;
    var a := [Start];
    var b := a + [Fire(0)];
    var c := b + [Wait];
    var d := c + [Pause];
    RunNothing(INITIAL);
    UnfoldOne(INITIAL, [], Start);
    assert [] + [Start] == a;
    UnfoldOne(INITIAL, a, Fire(0));
    UnfoldOne(INITIAL, b, Wait);
    UnfoldOne(INITIAL, c, Pause);
    UnfoldOne(INITIAL, d, Resume);
    assert d + [Resume] == RESUMED;
    assert Run(INITIAL, c) == State(None, Some(1), false, false, None, {}, {1}, 2);
  }

  /** It ends with two iterations at once when the new timer fires, and if instead the first iteration ends
      and the poller is closed, a timer is left behind that starts an iteration in the stopped poller. */
  lemma ResumeWhileRunning()
    ensures |Run(INITIAL, RESUMED + [Fire(2)]).running| == 2
    ensures var r := Run(INITIAL, RESUMED + [End(1)] + [Close] + [Fire(2)]); r.stopped && |r.running| == 1
  {
    hide Run;
    ResumedState();
    UnfoldOne(INITIAL, RESUMED, Fire(2));
    assert Run(INITIAL, RESUMED + [Fire(2)]).running == {1, 3};
    UnfoldOne(INITIAL, RESUMED, End(1));
    UnfoldOne(INITIAL, RESUMED + [End(1)], Close);
    UnfoldOne(INITIAL, RESUMED + [End(1)] + [Close], Fire(2));
    assert Run(INITIAL, RESUMED + [End(1)] + [Close]).pending == {2};
    assert Run(INITIAL, RESUMED + [End(1)] + [Close] + [Fire(2)]).running == {4};
  }
}
