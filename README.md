# Guided-tour step transitions

This project models the step-transition controller of the guided-tours overlay, the `GuidedTours` component in `client/layout/guided-tours/index.js`. Its handlers `next` and `quit` share one private field, `currentStepName`. That field holds the step the user has entered but that has not yet been credited as completed. A step's completion is credited one transition later. A non-skipping `next`, or a `quit`, records the `calypso_guided_tours_next` analytics event for the step that was pending. A skipping `next`, one that jumps past a step whose context became invalid, overwrites the pending step without crediting it. `next` defers its store commit (`nextGuidedTourStep`) to a later turn of the event loop. `quit` always records one terminal event, `calypso_guided_tours_finished` or `calypso_guided_tours_quit`, and dispatches `quitGuidedTour` at once.

Two modules:

- `TourTransitions` (`transitions.dfy`) holds the controller as a value: the pending step, one trace of observable effects, and the queue of deferred commits. The trace records analytics events and store dispatches in the order they happen, so "analytics before the store" can be stated. `AfterNext`, `AfterQuit` and `AfterTick` are the transitions. `Run` folds a history of calls. The lemmas relate what a run emits to the call history alone. `LastTransition` and `EnteredStep` define "the step waiting for credit" from the history, without the controller's state.
- `GuidedToursComponent` (`guided_tours.dfy`) holds the component as a class. Its fields are the pending step, the trace, the deferred queue, and the props the store supplies. Each of the methods `Next`, `Quit` and `Tick` ties its new state to the transition function above and states the effect of the call directly. `ShouldComponentUpdate` and `Render` are the update check and the visibility gate. The store's tour state is a class with immutable fields, which gives it the reference identity that the update check compares. `WelcomeTour` walks through a short tour and asserts each effect from these contracts.

Modelling decisions:

- The analytics transport (`tracks.recordEvent`) and the store's dispatch are not modelled as code. Each call to them becomes one entry appended to the trace.
- `lodash.defer` becomes a first-in first-out queue of commits. `Tick` is one turn of the event loop and runs the oldest commit. `Drain` runs every queued commit.
- JavaScript truthiness: the pending step is an `Option<string>`, and both `None` and `Some("")` count as "nothing pending" (`IsPending`). An empty name is therefore never credited. A `quit` leaves `Some("")` as it is, because the source only clears the field inside its truthiness check.
- The store's step name read by `quit` (`this.props.tourState.stepName`) is a parameter of the `Quit` call in the pure model. In the class it is the `tourState` field, which `ReceiveProps` replaces. This name can differ from the `step` argument, and the component's `WelcomeTour` shows a case where it does.
- One consequence of the deferral: when `quit` follows a `next` within the same turn, `quitGuidedTour` reaches the store before that `next`'s commit does (`WelcomeTour`, last two steps). How the store then reacts is not part of this model.

## Model

| member | source | states |
|---|---|---|
| `TourTransitions.CreditsOfOneCall` | client/layout/guided-tours/index.js:31-57 | The one call credits the pending step exactly when the call is a non-skipping `next` or a `quit` and a step is pending. Otherwise the call credits nothing. |
| `TourTransitions.QuitEmitsOneTerminal` | client/layout/guided-tours/index.js:59-69 | `quit` emits exactly one terminal event, named `finished` or `quit` after `isLastStep`, carrying the `step` argument. The last effect is the synchronous `quitGuidedTour` dispatch, which carries the store's step name and `finished = isLastStep`. |
| `TourTransitions.EventNamesDistinct` | client/layout/guided-tours/index.js:59 | The template-built terminal names are exactly `calypso_guided_tours_finished` and `calypso_guided_tours_quit`. They differ from each other and from the credit event name. |
| `TourTransitions.NextDispatchesNothing` | client/layout/guided-tours/index.js:41-46 | `next` appends only analytics records to the trace, never a store dispatch. Its commit `{tour, nextStepName}` is appended to the end of the deferred queue. |
| `TourTransitions.PendingIsLastEntered` | client/layout/guided-tours/index.js:26-57 | After any run, the step waiting for credit is decided by the last `next` or `quit` of the run alone: the step a `next` entered (overwritten, never merged), or nothing after a `quit`. If there was no transition, it is the step pending at the start. |
| `TourTransitions.CallCredits` | client/layout/guided-tours/index.js:26-57 | The credit emitted by each call of a run is for the step entered by the last transition before it, or, if there was none, for the step pending at the start. It is emitted exactly when the call is a non-skipping `next` or a `quit` and a non-empty step is waiting in that sense. |
| `TourTransitions.CreditedAtMostOnce` | client/layout/guided-tours/index.js:31-39 | No double credit. After a call has credited a step, any later call that credits something credits exactly the step entered by a `next` made at that call or later. The two credited entries therefore differ, and no entry is credited twice. |
| `TourTransitions.SkippedEntryNeverCredited` | client/layout/guided-tours/index.js:26-39 | If the first transition after an entry is a skipping `next`, then no call of the run ever credits that entry. |
| `TourTransitions.SkippedStartNeverCredited` | client/layout/guided-tours/index.js:26-39 | If the first transition of a run is a skipping `next`, the step pending before the run is never credited by any call. |
| `TourTransitions.QuitAgainCreditsNothing` | client/layout/guided-tours/index.js:49-63 | A second `quit` with no `next` since the first credits nothing and still emits exactly one terminal event. |
| `TourTransitions.CommitsOfOneCall` | client/layout/guided-tours/index.js:41-46 | Per call, dispatched commits followed by queued commits are conserved, plus the commit a `next` adds. `next` dispatches no commit and appends its own to the queue. `quit` dispatches no commit and leaves the queue unchanged. `Tick` dispatches exactly the oldest queued commit and pops it, or emits nothing on an empty queue. |
| `TourTransitions.CommitsFirstInFirstOut` | client/layout/guided-tours/index.js:41-46 | Over any run, the commits already dispatched followed by those still queued are exactly the commits requested by the run's `next` calls, in request order. |
| `TourTransitions.DrainDispatchesQueue` | client/layout/guided-tours/index.js:41-46 | Draining the deferred queue dispatches every queued commit in order. It leaves the pending step alone and empties the queue. |
| `TourTransitions.CreditPrecedesCommit` | client/layout/guided-tours/index.js:31-46 | After a `next` and a full drain, that `next`'s credit (if any) is the first new effect and its commit is the last one. Every earlier queued commit is dispatched between them. |
| `TourTransitions.TickOnlyDispatches` | client/layout/guided-tours/index.js:41-46 | A turn of the event loop leaves the pending step unchanged and records no analytics at all. Its only effect is the dispatch of the oldest queued commit, which it pops from the queue. On an empty queue it emits nothing. |
| `GuidedToursComponent.GuidedTours.constructor` | client/layout/guided-tours/index.js:21 | A newly mounted component has nothing pending, nothing recorded and nothing deferred. |
| `GuidedToursComponent.GuidedTours.Next` | client/layout/guided-tours/index.js:26-47 | The previous pending step is credited with the given tour and version unless the call is a skip or nothing is pending. The pending step becomes `nextStepName`. One commit `{tour, nextStepName}` is queued and nothing is dispatched. The new state is `TourTransitions.AfterNext` of the old one. |
| `GuidedToursComponent.GuidedTours.Quit` | client/layout/guided-tours/index.js:49-70 | A pending step is credited and cleared. Then come one terminal event and the `quitGuidedTour` dispatch, which carries the store's step name. The new state is `TourTransitions.AfterQuit` of the old one, with the store's step name. |
| `GuidedToursComponent.GuidedTours.Tick` | client/layout/guided-tours/index.js:41-46 | One deferred commit, the oldest, is dispatched if any is queued. Otherwise nothing changes. The new state is `TourTransitions.AfterTick` of the old one. |
| `GuidedToursComponent.GuidedTours.ShouldComponentUpdate` | client/layout/guided-tours/index.js:22-24 | The component skips a re-render only when it receives the very same tour-state object, so a skipped update never hides a change of tour, step or visibility. It re-renders only for a different object, so the very same object never re-renders. |
| `GuidedToursComponent.GuidedTours.ReceiveProps` | client/layout/guided-tours/index.js:22-24 | The new props always replace the old ones. A re-render is requested exactly when the tour-state object is a different one. |
| `GuidedToursComponent.GuidedTours.Render` | client/layout/guided-tours/index.js:72-95 | Nothing is rendered exactly when `shouldShow` is false. Otherwise the tour list receives the tour name, the section name and the loading flag, plus the store's step name whenever the store has one. |

## Left out

- client/blocks/reader-post-options-menu/index.jsx: view glue (store subscriptions, navigation and analytics side effects, menu visibility built from foreign predicates). It has no self-contained rule to verify.
- Real scheduling by `lodash.defer`: it is modelled as a first-in first-out queue with an explicit `Tick`. Timing is not modelled.
- The internals of the analytics transport and of the store (reducers, selectors, action creators): only the calls the component makes to them are modelled, as entries of the trace.
- GuidedToursComponent.GuidedTours.Render: does not model the `RootChild`, `QueryPreferences` and `AllTours` markup. It also does not model the `lastAction` and `isValid` props, nor the `next`/`quit` handlers it passes down, which are opaque functions.
- GuidedToursComponent.GuidedTours.Render: does not state which step name is passed down when the store's step name is absent. That is the case the unclear `'init'` default at line 75 is about (see below).
- The `'init'` default for `stepName` in the destructuring at client/layout/guided-tours/index.js:75. That line carries a stray character, so it is unclear whether the default applies to the `stepName` passed down. The model passes the store's step name through unchanged.
- `localize` and all user-facing copy.
- Undefined arguments: `tour`, `tourVersion`, `step` and `nextStepName` are modelled as strings. Their JavaScript `undefined` values are not modelled. The store's step name is an `Option`, and `None` stands for that undefined value. `skipping` and `isLastStep` are tested by truthiness in the source; the model takes them as booleans. The `skipping = false` default of the destructuring at line 26 becomes an explicit `false` argument.
- The visibility rule that no handler is called while the tour is hidden belongs to the callers, and the component does not enforce it. The model accepts every call in every state, as the code does.
