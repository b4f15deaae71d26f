/**
 * The step-transition controller of the guided-tours overlay, as values.
 *
 * A `Controller` holds what the component keeps between calls (the pending
 * step, `currentStepName`), everything it has made observable so far (one
 * trace in which analytics records and store dispatches appear in the order
 * they happen) and the store commits that `next` has deferred to a later
 * turn of the event loop. `AfterNext`, `AfterQuit` and `AfterTick` are the
 * three transitions; `Run` folds a history of calls. The lemmas relate what
 * a run emits to the call history alone.
 */
module TourTransitions {

  datatype Option<+T> = None | Some(value: T)

  /** Name of the event that credits a step as completed. */
  const NextEventName: string := "calypso_guided_tours_next"

  /** Common prefix of the two terminal event names. */
  const TerminalEventPrefix: string := "calypso_guided_tours_"

  /** One call of the analytics transport: the event name and its properties. */
  datatype TrackEvent = TrackEvent(name: string, tour: string, step: string, tourVersion: string)

  /** A store commit that `next` defers to a later turn. */
  datatype Commit = Commit(tour: string, stepName: string)

  /** An action dispatched to the store. */
  datatype Action =
    | NextGuidedTourStep(tour: string, stepName: string)
    | QuitGuidedTour(tour: string, storeStepName: Option<string>, finished: bool)

  /** An effect visible outside the controller. */
  datatype Effect = Recorded(event: TrackEvent) | Dispatched(action: Action)

  datatype Controller = Controller(pending: Option<string>, trace: seq<Effect>, deferred: seq<Commit>)

  /**
   * One thing that can happen to the controller: a `next` handler call, a
   * `quit` handler call (with the step name the store's tour state holds at
   * that moment), or a turn of the event loop that runs one deferred commit.
   */
  datatype Call =
    | Next(tour: string, tourVersion: string, nextStepName: string, skipping: bool)
    | Quit(step: string, tour: string, tourVersion: string, isLastStep: bool, storeStepName: Option<string>)
    | Tick

  /** A freshly mounted component: nothing pending, nothing observed, nothing deferred. */
  const Mounted: Controller := Controller(None, [], [])

  /** JavaScript truthiness of the pending step: an absent or empty name is not pending. */
  predicate IsPending(p: Option<string>) {
    p.Some? && p.value != ""
  }

  /** The pending step as far as crediting is concerned. */
  function PendingStep(p: Option<string>): Option<string> {
    if IsPending(p) then p else None
  }

  /** The completion credit for whatever is pending: one event, or none. */
  function Credit(pending: Option<string>, tour: string, tourVersion: string): seq<Effect> {
    if IsPending(pending) then [Recorded(TrackEvent(NextEventName, tour, pending.value, tourVersion))] else []
  }

  /** The terminal event name, built the way the template string builds it. */
  function TerminalEventName(isLastStep: bool): string {
    TerminalEventPrefix + (if isLastStep then "finished" else "quit")
  }

  function AfterNext(c: Controller, tour: string, tourVersion: string, nextStepName: string, skipping: bool): Controller {
    Controller(
      Some(nextStepName),
      c.trace + (if skipping then [] else Credit(c.pending, tour, tourVersion)),
      c.deferred + [Commit(tour, nextStepName)])
  }

  function AfterQuit(c: Controller, step: string, tour: string, tourVersion: string, isLastStep: bool,
                     storeStepName: Option<string>): Controller {
    Controller(
      if IsPending(c.pending) then None else c.pending,
      c.trace + Credit(c.pending, tour, tourVersion)
        + [Recorded(TrackEvent(TerminalEventName(isLastStep), tour, step, tourVersion)),
           Dispatched(QuitGuidedTour(tour, storeStepName, isLastStep))],
      c.deferred)
  }

  /** One turn of the event loop: the oldest deferred commit reaches the store. */
  function AfterTick(c: Controller): Controller {
    if c.deferred == [] then c
    else Controller(
      c.pending,
      c.trace + [Dispatched(NextGuidedTourStep(c.deferred[0].tour, c.deferred[0].stepName))],
      c.deferred[1..])
  }

  function Step(c: Controller, call: Call): Controller {
    match call
    case Next(tour, tourVersion, nextStepName, skipping) => AfterNext(c, tour, tourVersion, nextStepName, skipping)
    case Quit(step, tour, tourVersion, isLastStep, storeStepName) => AfterQuit(c, step, tour, tourVersion, isLastStep, storeStepName)
    case Tick => AfterTick(c)
  }

  /** The controller after the calls `cs`, in order. */
  function Run(c: Controller, cs: seq<Call>): Controller
    decreases |cs|
  {
    if cs == [] then c else Step(Run(c, cs[..|cs| - 1]), cs[|cs| - 1])
  }

  /** What one call appends to the trace; no call ever rewrites what is already there. */
  function Emitted(c: Controller, call: Call): (e: seq<Effect>)
    ensures Step(c, call).trace == c.trace + e
  {
    Step(c, call).trace[|c.trace|..]
  }

  /** The steps credited, in order, by the `next` events among `e`. */
  function CreditedSteps(e: seq<Effect>): seq<string> {
    if e == [] then []
    else (if e[0].Recorded? && e[0].event.name == NextEventName then [e[0].event.step] else [])
         + CreditedSteps(e[1..])
  }

  predicate IsTerminal(e: Effect) {
    e.Recorded? && (e.event.name == TerminalEventName(true) || e.event.name == TerminalEventName(false))
  }

  /** The terminal (`finished` or `quit`) events among `e`, in order. */
  function TerminalEvents(e: seq<Effect>): seq<TrackEvent> {
    if e == [] then []
    else (if IsTerminal(e[0]) then [e[0].event] else []) + TerminalEvents(e[1..])
  }

  /** The store commits dispatched, in order, among `e`. */
  function DispatchedCommits(e: seq<Effect>): seq<Commit> {
    if e == [] then []
    else (if e[0].Dispatched? && e[0].action.NextGuidedTourStep?
          then [Commit(e[0].action.tour, e[0].action.stepName)] else [])
         + DispatchedCommits(e[1..])
  }

  /** The commits requested by the `next` calls among `cs`, in order. */
  function RequestedCommits(cs: seq<Call>): seq<Commit>
    decreases |cs|
  {
    if cs == [] then []
    else RequestedCommits(cs[..|cs| - 1])
         + (if cs[|cs| - 1].Next? then [Commit(cs[|cs| - 1].tour, cs[|cs| - 1].nextStepName)] else [])
  }

  /** The store dispatches a sequence of commits turns into, in order. */
  function AsDispatches(ds: seq<Commit>): seq<Effect> {
    if ds == [] then [] else [Dispatched(NextGuidedTourStep(ds[0].tour, ds[0].stepName))] + AsDispatches(ds[1..])
  }

  /** Run every deferred commit, oldest first. */
  function Drain(c: Controller): Controller
    decreases |c.deferred|
  {
    if c.deferred == [] then c else Drain(AfterTick(c))
  }

  /** A transition that may credit the pending step: a non-skipping `next`, or a `quit`. */
  predicate Credits(call: Call) {
    (call.Next? && !call.skipping) || call.Quit?
  }

  /** The index of the last `next` or `quit` among `cs`: the transition that decided what is pending. */
  function LastTransition(cs: seq<Call>): (k: Option<nat>)
    decreases |cs|
    ensures k.Some? ==> k.value < |cs| && !cs[k.value].Tick?
    ensures k.Some? ==> forall j :: k.value < j < |cs| ==> cs[j].Tick?
    ensures k.None? ==> forall j :: 0 <= j < |cs| ==> cs[j].Tick?
  {
    if cs == [] then None
    else if cs[|cs| - 1].Tick? then LastTransition(cs[..|cs| - 1])
    else Some(|cs| - 1)
  }

  /**
   * The step waiting for credit after the calls `cs`, read off the history
   * alone: the step entered by the last transition if that was a `next` to a
   * non-empty step, nothing if it was a `quit`, and what was pending at the
   * start if there was no transition.
   */
  function EnteredStep(start: Option<string>, cs: seq<Call>): Option<string> {
    match LastTransition(cs)
    case None => PendingStep(start)
    case Some(i) => if cs[i].Next? && cs[i].nextStepName != "" then Some(cs[i].nextStepName) else None
  }

  // ---------------------------------------------------------------------
  // Facts about the filters
  // ---------------------------------------------------------------------

  lemma {:induction false} CreditedStepsAppend(a: seq<Effect>, b: seq<Effect>)
    ensures CreditedSteps(a + b) == CreditedSteps(a) + CreditedSteps(b)
  {
    if a == [] {
      assert a + b == b;
    } else {
      assert (a + b)[1..] == a[1..] + b;
      CreditedStepsAppend(a[1..], b);
    }
  }

  lemma {:induction false} TerminalEventsAppend(a: seq<Effect>, b: seq<Effect>)
    ensures TerminalEvents(a + b) == TerminalEvents(a) + TerminalEvents(b)
  {
    if a == [] {
      assert a + b == b;
    } else {
      assert (a + b)[1..] == a[1..] + b;
      TerminalEventsAppend(a[1..], b);
    }
  }

  lemma {:induction false} DispatchedCommitsAppend(a: seq<Effect>, b: seq<Effect>)
    ensures DispatchedCommits(a + b) == DispatchedCommits(a) + DispatchedCommits(b)
  {
    if a == [] {
      assert a + b == b;
    } else {
      assert (a + b)[1..] == a[1..] + b;
      DispatchedCommitsAppend(a[1..], b);
    }
  }

  /** The credit event and the two terminal events all have different names. */
  lemma EventNamesDistinct()
    ensures NextEventName != TerminalEventName(true)
    ensures NextEventName != TerminalEventName(false)
    ensures TerminalEventName(true) != TerminalEventName(false)
    ensures TerminalEventName(true) == "calypso_guided_tours_finished"
    ensures TerminalEventName(false) == "calypso_guided_tours_quit"
  {
    assert NextEventName[21] == 'n';
    assert TerminalEventName(true)[21] == 'f';
    assert TerminalEventName(false)[21] == 'q';
  }

  // ---------------------------------------------------------------------
  // One call
  // ---------------------------------------------------------------------

  /**
   * What one call credits: the pending step, exactly when the call is a
   * non-skipping `next` or a `quit` and a step is pending; nothing otherwise.
   */
  lemma CreditsOfOneCall(c: Controller, call: Call)
    ensures CreditedSteps(Emitted(c, call))
            == if Credits(call) && IsPending(c.pending) then [c.pending.value] else []
  {
    EventNamesDistinct();
    var e := Emitted(c, call);
    match call
    case Next(tour, tourVersion, nextStepName, skipping) =>
      assert e == (if skipping then [] else Credit(c.pending, tour, tourVersion));
    case Quit(step, tour, tourVersion, isLastStep, storeStepName) =>
      var tail := [Recorded(TrackEvent(TerminalEventName(isLastStep), tour, step, tourVersion)),
                   Dispatched(QuitGuidedTour(tour, storeStepName, isLastStep))];
      assert e == Credit(c.pending, tour, tourVersion) + tail;
      CreditedStepsAppend(Credit(c.pending, tour, tourVersion), tail);
      assert CreditedSteps(tail) == [] by {
        assert tail[1..][1..] == [];
      }
    case Tick =>
      if c.deferred != [] {
        assert e == [Dispatched(NextGuidedTourStep(c.deferred[0].tour, c.deferred[0].stepName))];
      } else {
        assert e == [];
      }
  }

  /**
   * `quit` emits exactly one terminal event, named after `isLastStep` and
   * carrying the `step` argument, and it emits it after any credit.
   */
  lemma QuitEmitsOneTerminal(c: Controller, step: string, tour: string, tourVersion: string,
                             isLastStep: bool, storeStepName: Option<string>)
    ensures var e := Emitted(c, Quit(step, tour, tourVersion, isLastStep, storeStepName));
      && TerminalEvents(e) == [TrackEvent(TerminalEventName(isLastStep), tour, step, tourVersion)]
      && e[|e| - 2] == Recorded(TrackEvent(TerminalEventName(isLastStep), tour, step, tourVersion))
      && e[|e| - 1] == Dispatched(QuitGuidedTour(tour, storeStepName, isLastStep))
  {
    EventNamesDistinct();
    var e := Emitted(c, Quit(step, tour, tourVersion, isLastStep, storeStepName));
    var credit := Credit(c.pending, tour, tourVersion);
    var tail := [Recorded(TrackEvent(TerminalEventName(isLastStep), tour, step, tourVersion)),
                 Dispatched(QuitGuidedTour(tour, storeStepName, isLastStep))];
    assert e == credit + tail;
    TerminalEventsAppend(credit, tail);
    assert TerminalEvents(credit) == [];
    assert tail[1..][1..] == [];
  }

  /** `next` never dispatches to the store itself: it only queues its commit, last. */
  lemma NextDispatchesNothing(c: Controller, tour: string, tourVersion: string, nextStepName: string, skipping: bool)
    ensures DispatchedCommits(Emitted(c, Next(tour, tourVersion, nextStepName, skipping))) == []
    ensures forall k :: 0 <= k < |Emitted(c, Next(tour, tourVersion, nextStepName, skipping))| ==>
              Emitted(c, Next(tour, tourVersion, nextStepName, skipping))[k].Recorded?
    ensures AfterNext(c, tour, tourVersion, nextStepName, skipping).deferred
            == c.deferred + [Commit(tour, nextStepName)]
  {
    var e := Emitted(c, Next(tour, tourVersion, nextStepName, skipping));
    assert e == (if skipping then [] else Credit(c.pending, tour, tourVersion));
  }

  // ---------------------------------------------------------------------
  // Runs of calls
  // ---------------------------------------------------------------------

  /** What is pending after a run is decided by the run's last transition alone. */
  lemma {:induction false} PendingIsLastEntered(c: Controller, cs: seq<Call>)
    ensures PendingStep(Run(c, cs).pending) == EnteredStep(c.pending, cs)
    decreases |cs|
  {
    if cs != [] {
      var n := |cs| - 1;
      var before := cs[..n];
      PendingIsLastEntered(c, before);
      var prev := Run(c, before);
      if cs[n].Tick? {
        assert Run(c, cs).pending == prev.pending;
        assert LastTransition(cs) == LastTransition(before);
        match LastTransition(before)
        case None =>
        case Some(i) => assert cs[i] == before[i];
      }
    }
  }

  /**
   * The credit emitted by call `j` of a run is for the step entered by the
   * last transition before `j`, and it is emitted exactly when call `j` is a
   * non-skipping `next` or a `quit` and that transition entered a step.
   */
  lemma CallCredits(c: Controller, cs: seq<Call>, j: nat)
    requires j < |cs|
    ensures var entered := EnteredStep(c.pending, cs[..j]);
      CreditedSteps(Emitted(Run(c, cs[..j]), cs[j]))
      == if Credits(cs[j]) && entered.Some? then [entered.value] else []
  {
    PendingIsLastEntered(c, cs[..j]);
    CreditsOfOneCall(Run(c, cs[..j]), cs[j]);
  }

  /**
   * No double credit. Once call `j1` has credited a step, every later call
   * `j2` can only credit a step entered at `j1` or later; so the entry that
   * `j1` credited (made before `j1`) can never be credited again.
   */
  lemma CreditedAtMostOnce(c: Controller, cs: seq<Call>, j1: nat, j2: nat)
    requires j1 < j2 < |cs|
    requires CreditedSteps(Emitted(Run(c, cs[..j1]), cs[j1])) != []
    ensures LastTransition(cs[..j2]).Some? && LastTransition(cs[..j2]).value >= j1
    ensures LastTransition(cs[..j1]) != LastTransition(cs[..j2])
    ensures CreditedSteps(Emitted(Run(c, cs[..j2]), cs[j2])) != [] ==>
              var i2 := LastTransition(cs[..j2]).value;
              && j1 <= i2 < j2
              && cs[i2].Next?
              && CreditedSteps(Emitted(Run(c, cs[..j2]), cs[j2])) == [cs[i2].nextStepName]
  {
    CreditsOfOneCall(Run(c, cs[..j1]), cs[j1]);
    assert !cs[j1].Tick?;
    assert cs[..j2][j1] == cs[j1];
    CallCredits(c, cs, j2);
    var i2 := LastTransition(cs[..j2]).value;
    assert cs[..j2][i2] == cs[i2];
  }

  /**
   * Skip suppresses credit. If the first transition after the entry made by
   * call `i` is a skipping `next` at `k`, no call ever credits that entry.
   */
  lemma SkippedEntryNeverCredited(c: Controller, cs: seq<Call>, i: nat, k: nat, j: nat)
    requires i < k < |cs| && j < |cs|
    requires cs[k].Next? && cs[k].skipping
    requires forall m :: i < m < k ==> cs[m].Tick?
    requires LastTransition(cs[..j]) == Some(i)
    ensures CreditedSteps(Emitted(Run(c, cs[..j]), cs[j])) == []
  {
    var prefix := cs[..j];
    forall m | i < m < j
      ensures cs[m].Tick?
    {
      assert prefix[m] == cs[m];
    }
    assert !Credits(cs[j]);
    CreditsOfOneCall(Run(c, prefix), cs[j]);
  }

  /**
   * Skip suppresses credit for the step pending at the start too: if the
   * first transition of the run is a skipping `next`, no call credits what
   * was pending before it.
   */
  lemma SkippedStartNeverCredited(c: Controller, cs: seq<Call>, k: nat, j: nat)
    requires k < |cs| && j < |cs|
    requires cs[k].Next? && cs[k].skipping
    requires forall m :: 0 <= m < k ==> cs[m].Tick?
    requires LastTransition(cs[..j]).None?
    ensures CreditedSteps(Emitted(Run(c, cs[..j]), cs[j])) == []
  {
    var prefix := cs[..j];
    forall m | 0 <= m < j
      ensures cs[m].Tick?
    {
      assert prefix[m] == cs[m];
    }
    assert !Credits(cs[j]);
    CreditsOfOneCall(Run(c, prefix), cs[j]);
  }

  /**
   * A second `quit` with no `next` since the first credits nothing, and still
   * emits its one terminal event.
   */
  lemma QuitAgainCreditsNothing(c: Controller, cs: seq<Call>, j1: nat, j2: nat)
    requires j1 < j2 < |cs|
    requires cs[j1].Quit? && cs[j2].Quit?
    requires forall m :: j1 < m < j2 ==> !cs[m].Next?
    ensures CreditedSteps(Emitted(Run(c, cs[..j2]), cs[j2])) == []
    ensures |TerminalEvents(Emitted(Run(c, cs[..j2]), cs[j2]))| == 1
  {
    var prefix := cs[..j2];
    assert prefix[j1] == cs[j1];
    var k := LastTransition(prefix);
    assert k.Some? && k.value >= j1;
    assert prefix[k.value].Quit?;
    CallCredits(c, cs, j2);
    var q := cs[j2];
    QuitEmitsOneTerminal(Run(c, prefix), q.step, q.tour, q.tourVersion, q.isLastStep, q.storeStepName);
  }

  lemma DispatchedCommitsOfCredit(p: Option<string>, tour: string, tourVersion: string)
    ensures DispatchedCommits(Credit(p, tour, tourVersion)) == []
  {
  }

  /**
   * How one call moves commits between the queue and the store: `next`
   * queues its own and dispatches none, `quit` dispatches none and leaves the
   * queue alone, and `Tick` moves the oldest queued commit to the store.
   */
  lemma CommitsOfOneCall(c: Controller, call: Call)
    ensures DispatchedCommits(Step(c, call).trace) + Step(c, call).deferred
            == DispatchedCommits(c.trace) + c.deferred
               + (if call.Next? then [Commit(call.tour, call.nextStepName)] else [])
    ensures call.Next? ==> DispatchedCommits(Emitted(c, call)) == []
                           && Step(c, call).deferred == c.deferred + [Commit(call.tour, call.nextStepName)]
    ensures call.Quit? ==> DispatchedCommits(Emitted(c, call)) == [] && Step(c, call).deferred == c.deferred
    ensures call.Tick? && c.deferred != [] ==>
              DispatchedCommits(Emitted(c, call)) == [c.deferred[0]] && Step(c, call).deferred == c.deferred[1..]
    ensures call.Tick? && c.deferred == [] ==> Emitted(c, call) == [] && Step(c, call).deferred == []
  {
    var e := Emitted(c, call);
    DispatchedCommitsAppend(c.trace, e);
    match call
    case Next(tour, tourVersion, nextStepName, skipping) =>
      NextDispatchesNothing(c, tour, tourVersion, nextStepName, skipping);
    case Quit(step, tour, tourVersion, isLastStep, storeStepName) =>
      QuitDispatchesNoCommit(c, step, tour, tourVersion, isLastStep, storeStepName);
    case Tick =>
      TickDispatchesOldest(c);
  }

  lemma TickDispatchesOldest(c: Controller)
    ensures c.deferred != [] ==> DispatchedCommits(Emitted(c, Tick)) == [c.deferred[0]]
                                 && c.deferred[..1] + AfterTick(c).deferred == c.deferred
    ensures c.deferred == [] ==> Emitted(c, Tick) == [] && AfterTick(c).deferred == []
  {
    TickOnlyDispatches(c);
    if c.deferred != [] {
      assert c.deferred[..1] + c.deferred[1..] == c.deferred;
    }
  }

  lemma QuitDispatchesNoCommit(c: Controller, step: string, tour: string, tourVersion: string,
                               isLastStep: bool, storeStepName: Option<string>)
    ensures DispatchedCommits(Emitted(c, Quit(step, tour, tourVersion, isLastStep, storeStepName))) == []
  {
    var credit := Credit(c.pending, tour, tourVersion);
    var tail := [Recorded(TrackEvent(TerminalEventName(isLastStep), tour, step, tourVersion)),
                 Dispatched(QuitGuidedTour(tour, storeStepName, isLastStep))];
    assert Emitted(c, Quit(step, tour, tourVersion, isLastStep, storeStepName)) == credit + tail;
    DispatchedCommitsOfCredit(c.pending, tour, tourVersion);
    DispatchedCommitsAppend(credit, tail);
    assert tail[1..][1..] == [];
  }

  /**
   * Deferred commits reach the store first in, first out: what has been
   * dispatched followed by what is still queued is always every requested
   * commit, in request order, and nothing else.
   */
  lemma {:induction false} CommitsFirstInFirstOut(c: Controller, cs: seq<Call>)
    ensures DispatchedCommits(Run(c, cs).trace) + Run(c, cs).deferred
            == DispatchedCommits(c.trace) + c.deferred + RequestedCommits(cs)
    decreases |cs|
  {
    if cs != [] {
      var n := |cs| - 1;
      CommitsFirstInFirstOut(c, cs[..n]);
      CommitsOfOneCall(Run(c, cs[..n]), cs[n]);
    }
  }

  /** Draining runs the queued commits in order and touches nothing else. */
  lemma {:induction false} DrainDispatchesQueue(c: Controller)
    ensures Drain(c) == Controller(c.pending, c.trace + AsDispatches(c.deferred), [])
    decreases |c.deferred|
  {
    if c.deferred == [] {
      assert c.trace + AsDispatches(c.deferred) == c.trace;
    } else {
      DrainDispatchesQueue(AfterTick(c));
      assert (c.trace + AsDispatches(c.deferred)[..1]) + AsDispatches(c.deferred[1..])
             == c.trace + AsDispatches(c.deferred);
    }
  }

  lemma {:induction false} AsDispatchesAppend(a: seq<Commit>, b: seq<Commit>)
    ensures AsDispatches(a + b) == AsDispatches(a) + AsDispatches(b)
  {
    if a == [] {
      assert a + b == b;
    } else {
      assert (a + b)[1..] == a[1..] + b;
      AsDispatchesAppend(a[1..], b);
    }
  }

  /**
   * Analytics before the store. After a `next`, its credit (if any) is the
   * first new effect, every commit queued earlier reaches the store next,
   * and the commit of this `next` is the last effect once the queue drains.
   */
  lemma CreditPrecedesCommit(c: Controller, tour: string, tourVersion: string, nextStepName: string, skipping: bool)
    ensures var d := Drain(AfterNext(c, tour, tourVersion, nextStepName, skipping));
      var credit := if skipping then [] else Credit(c.pending, tour, tourVersion);
      && d.trace == c.trace + credit + AsDispatches(c.deferred)
                    + [Dispatched(NextGuidedTourStep(tour, nextStepName))]
      && d.deferred == []
      && d.pending == Some(nextStepName)
      && (credit != [] ==> d.trace[|c.trace|] == credit[0] && |c.trace| < |d.trace| - 1)
  {
    var s := AfterNext(c, tour, tourVersion, nextStepName, skipping);
    DrainDispatchesQueue(s);
    AsDispatchesAppend(c.deferred, [Commit(tour, nextStepName)]);
    var credit := if skipping then [] else Credit(c.pending, tour, tourVersion);
    assert AsDispatches([Commit(tour, nextStepName)]) == [Dispatched(NextGuidedTourStep(tour, nextStepName))];
    assert s.trace + AsDispatches(s.deferred)
        == c.trace + credit + AsDispatches(c.deferred) + [Dispatched(NextGuidedTourStep(tour, nextStepName))];
  }

  /**
   * Ticks leave the pending step alone and never record analytics: a tick
   * dispatches the oldest queued commit and pops it, or does nothing.
   */
  lemma TickOnlyDispatches(c: Controller)
    ensures AfterTick(c).pending == c.pending
    ensures Emitted(c, Tick) == if c.deferred == [] then []
                                else [Dispatched(NextGuidedTourStep(c.deferred[0].tour, c.deferred[0].stepName))]
    ensures AfterTick(c).deferred == if c.deferred == [] then [] else c.deferred[1..]
    ensures forall k :: 0 <= k < |Emitted(c, Tick)| ==> !Emitted(c, Tick)[k].Recorded?
    ensures CreditedSteps(Emitted(c, Tick)) == [] && TerminalEvents(Emitted(c, Tick)) == []
  {
    if c.deferred != [] {
      assert Emitted(c, Tick) == [Dispatched(NextGuidedTourStep(c.deferred[0].tour, c.deferred[0].stepName))];
    } else {
      assert Emitted(c, Tick) == [];
    }
  }
}
