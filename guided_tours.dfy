/**
 * The `GuidedTours` component (client/layout/guided-tours/index.js) as an
 * object whose handlers update its fields in place.
 *
 * `currentStepName` is the component's private pending step. The analytics
 * transport and the store are append-only: everything recorded or dispatched
 * lands in `trace`, in order. Commits that `next` defers wait in `deferred`
 * until `Tick`, one turn of the event loop, runs the oldest. The props the
 * store hands the component are the fields `tourState`, `sectionName` and
 * `isSectionLoading`.
 */
module GuidedToursComponent {
  import opened TourTransitions

  /**
   * The store's tour state. The selector hands out a new object whenever the
   * state changes, so identity, not contents, tells a change apart.
   */
  class TourState {
    const tour: Option<string>
    const stepName: Option<string>
    const shouldShow: bool

    constructor (tour: Option<string>, stepName: Option<string>, shouldShow: bool)
      ensures this.tour == tour && this.stepName == stepName && this.shouldShow == shouldShow
    {
      this.tour := tour;
      this.stepName := stepName;
      this.shouldShow := shouldShow;
    }
  }

  /** The props the component passes to the tour list when it shows it. */
  datatype AllToursProps = AllToursProps(sectionName: string, shouldPause: bool,
                                         tourName: Option<string>, stepName: Option<string>)

  class GuidedTours {
    var tourState: TourState
    var sectionName: string
    var isSectionLoading: bool

    var currentStepName: Option<string>
    var trace: seq<Effect>
    var deferred: seq<Commit>

    /** The controller part of the component, as a value. */
    function State(): Controller
      reads this
    {
      Controller(currentStepName, trace, deferred)
    }

    constructor (tourState: TourState, sectionName: string, isSectionLoading: bool)
      ensures this.tourState == tourState && this.sectionName == sectionName
      ensures this.isSectionLoading == isSectionLoading
      ensures State() == Mounted
    {
      this.tourState := tourState;
      this.sectionName := sectionName;
      this.isSectionLoading := isSectionLoading;
      currentStepName := None;
      trace := [];
      deferred := [];
    }

    /** Re-render only when the store handed over a different tour-state object. */
    function ShouldComponentUpdate(nextTourState: TourState): (update: bool)
      reads this
      ensures !update ==> nextTourState == tourState
      ensures update ==> nextTourState != tourState
      ensures !update ==> nextTourState.shouldShow == tourState.shouldShow
                          && nextTourState.tour == tourState.tour
                          && nextTourState.stepName == tourState.stepName
    {
      tourState != nextTourState
    }

    /**
     * New props from the store. The props always change; the result says
     * whether the component re-renders for them.
     */
    method ReceiveProps(nextTourState: TourState, nextSectionName: string, nextIsSectionLoading: bool)
      returns (rerender: bool)
      modifies this`tourState, this`sectionName, this`isSectionLoading
      ensures rerender <==> old(tourState) != nextTourState
      ensures tourState == nextTourState && sectionName == nextSectionName
      ensures isSectionLoading == nextIsSectionLoading
    {
      rerender := ShouldComponentUpdate(nextTourState);
      tourState, sectionName, isSectionLoading := nextTourState, nextSectionName, nextIsSectionLoading;
    }

    /** Nothing is shown while the store says to hide the tour. */
    function Render(): (shown: Option<AllToursProps>)
      reads this
      ensures shown.None? <==> !tourState.shouldShow
      ensures shown.Some? ==> shown.value.tourName == tourState.tour
                              && (tourState.stepName.Some? ==> shown.value.stepName == tourState.stepName)
                              && shown.value.sectionName == sectionName
                              && shown.value.shouldPause == isSectionLoading
    {
      if !tourState.shouldShow then None
      else Some(AllToursProps(sectionName, isSectionLoading, tourState.tour, tourState.stepName))
    }

    /**
     * Move to `nextStepName`. The previous pending step is credited unless
     * this is a skip or nothing is pending; the new step becomes pending; the
     * store commit is queued, not dispatched.
     */
    method Next(tour: string, tourVersion: string, nextStepName: string, skipping: bool)
      modifies this`currentStepName, this`trace, this`deferred
      ensures State() == AfterNext(old(State()), tour, tourVersion, nextStepName, skipping)
      ensures currentStepName == Some(nextStepName)
      ensures !skipping && IsPending(old(currentStepName)) ==>
                trace == old(trace) + [Recorded(TrackEvent(NextEventName, tour, old(currentStepName).value, tourVersion))]
      ensures skipping || !IsPending(old(currentStepName)) ==> trace == old(trace)
      ensures deferred == old(deferred) + [Commit(tour, nextStepName)]
    {
      if !skipping && IsPending(currentStepName) {
        trace := trace + [Recorded(TrackEvent(NextEventName, tour, currentStepName.value, tourVersion))];
      }
      currentStepName := Some(nextStepName);
      deferred := deferred + [Commit(tour, nextStepName)];
    }

    /**
     * End the tour. Any pending step is credited and cleared, exactly one
     * terminal event follows, and the store learns at once, with the step
     * name its own tour state holds.
     */
    method Quit(step: string, tour: string, tourVersion: string, isLastStep: bool)
      modifies this`currentStepName, this`trace
      ensures State() == AfterQuit(old(State()), step, tour, tourVersion, isLastStep, tourState.stepName)
      ensures !IsPending(currentStepName)
      ensures IsPending(old(currentStepName)) ==> currentStepName == None
      ensures !IsPending(old(currentStepName)) ==> currentStepName == old(currentStepName)
      ensures trace == old(trace) + Credit(old(currentStepName), tour, tourVersion)
                       + [Recorded(TrackEvent(TerminalEventName(isLastStep), tour, step, tourVersion)),
                          Dispatched(QuitGuidedTour(tour, tourState.stepName, isLastStep))]
    {
      if IsPending(currentStepName) {
        trace := trace + [Recorded(TrackEvent(NextEventName, tour, currentStepName.value, tourVersion))];
        currentStepName := None;
      }
      trace := trace + [Recorded(TrackEvent(TerminalEventName(isLastStep), tour, step, tourVersion))];
      trace := trace + [Dispatched(QuitGuidedTour(tour, tourState.stepName, isLastStep))];
    }

    /** One turn of the event loop: the oldest deferred commit is dispatched. */
    method Tick() returns (ran: bool)
      modifies this`trace, this`deferred
      ensures State() == AfterTick(old(State()))
      ensures ran <==> old(deferred) != []
      ensures ran ==> trace == old(trace) + [Dispatched(NextGuidedTourStep(old(deferred)[0].tour, old(deferred)[0].stepName))]
                      && deferred == old(deferred)[1..]
      ensures !ran ==> trace == old(trace) && deferred == old(deferred)
    {
      ran := deferred != [];
      if ran {
        var commit := deferred[0];
        trace := trace + [Dispatched(NextGuidedTourStep(commit.tour, commit.stepName))];
        deferred := deferred[1..];
      }
    }
  }

  /**
   * The walk-through of a "welcome" tour: a first `next` credits nothing, a
   * second credits the first step, the store sees each step one turn later,
   * and finishing credits the last step before the terminal event.
   */
  method WelcomeTour() {
    var state := new TourState(Some("welcome"), Some("init"), true);
    var g := new GuidedTours(state, "reader", false);
    assert g.Render() == Some(AllToursProps("reader", false, Some("welcome"), Some("init")));

    g.Next("welcome", "v1", "step1", false);
    assert g.trace == [] && g.deferred == [Commit("welcome", "step1")];
    var ran := g.Tick();
    assert g.trace == [Dispatched(NextGuidedTourStep("welcome", "step1"))];

    var state1 := new TourState(Some("welcome"), Some("step1"), true);
    var rerender := g.ReceiveProps(state1, "reader", false);
    assert rerender;

    g.Next("welcome", "v1", "step2", false);
    var credit1 := Recorded(TrackEvent(NextEventName, "welcome", "step1", "v1"));
    assert g.trace == [Dispatched(NextGuidedTourStep("welcome", "step1")), credit1];

    g.Quit("step2", "welcome", "v1", true);
    EventNamesDistinct();
    assert g.trace[3] == Recorded(TrackEvent("calypso_guided_tours_finished", "welcome", "step2", "v1"));
    assert g.trace[4] == Dispatched(QuitGuidedTour("welcome", Some("step1"), true));
    assert g.currentStepName == None;

    ran := g.Tick();
    assert ran && g.trace[5] == Dispatched(NextGuidedTourStep("welcome", "step2"));
  }
}
