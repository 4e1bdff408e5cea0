# react-active-menu: the `useActiveMenu` hook as a Dafny model

`useActiveMenu` tracks which section of a page is in view and scrolls to a section
when its menu trigger is clicked. This project models the hook's logic with its DOM
reads turned into integers:

- `refs.dfy` (module `Refs`): the `sectionRefs` / `triggerRefs` stores. Each is a map from
  id to handle plus the order the ids were first registered in, since the detector
  enumerates the object in that order. Re-registering an id overwrites its handle and
  keeps its position.
- `detector.dfy` (module `Detector`): `detectActiveSection` as a left fold over the
  measured sections, `(id, top)` pairs read against `containerTop` and `offset`. It also
  has the loop as the source writes it, and a reference definition of the outcome when
  the container's top edge is flush with the top of the viewport. Two quirks are kept as written:
  - `!closestDimension` treats a stored 0 like `undefined`;
  - the raw `sectionTop` is stored but compared with a relative top.
- `menu.dfy` (module `Menu`): the hook as a state machine. The state is
  `{active, isTransitioning, pending polls, sections, triggers}`, and the events are:
  - register a section or a trigger;
  - click (navigate);
  - scroll (detect);
  - one poll round (`Tick`).

  The `onActiveChange` effect is a function of two consecutive states. A `Run` over a
  sequence of events collects the callbacks and the scroll requests.
- `menu_properties.dfy` (module `MenuProperties`): properties of runs: the callback gate,
  how polls complete, the stale poll that ends a newer navigation, and the flag that an
  unresolved click leaves set when no poll is waiting.
- `offset_top.dfy` (module `OffsetTop`): `getOffsetTop`, the sum of `offsetTop` over the
  `offsetParent` chain. An element is a finite, acyclic datatype, and null is `None`.
- `wrappers.dfy` (module `Wrappers`): `Option`, standing for `undefined`.

The page is read only through the values an event carries. A `View` holds the
container's `scrollTop`, the top of its bounding rectangle, and a function giving each
section's top. Both tops are what `getBoundingClientRect` reports (src/index.ts:43-44, 73,
77), so they are measured from the top of the viewport, not from the top of the page:
`containerTop` is 0 for a container flush with the viewport top, positive for one lower
in the viewport, and negative for one whose top edge has scrolled out of view. A `Tick`
holds the `scrollTop` the polls observe. The `offset` option
(0 when not given) is a parameter of every step.

## Behaviour that may surprise

- Clicking a trigger whose id has no section still sets `isTransitioning`, because the
  flag is set before the lookup. Nothing clears it unless an earlier navigation's poll is
  still waiting or a later click names a section (`MenuProperties.UnresolvedClickNeverSettles`).
- A new navigation does not cancel the previous one's poll. That stale poll can clear the
  flag while the newer scroll is still in flight
  (`MenuProperties.StalePollEndsNewerNavigation`).
- When no section is at or above the threshold, the first registered section is active,
  whatever the container's position, as long as its top is not 0
  (`Detector.DetectFallsBackToFirst`). Elsewhere the loop condition departs from
  "the closest section at or above the threshold":
  - the first section is taken unconditionally, and a later section replaces it only when
    its relative top exceeds the first section's raw top. With the container's top edge
    at or below the viewport top (`containerTop >= 0`), a first section that is below the
    threshold and whose top is not 0 therefore stays active over every later section,
    candidates included (`Detector.FirstBelowThresholdStaysActive`,
    `Detector.FirstBelowThresholdBeatsCandidate`). With the container's top edge above
    the viewport top, for instance a scrollable panel whose top has scrolled 1000 pixels
    out of view with the page, a candidate can win instead
    (`Detector.CandidateWinsAboveViewportTop`);
  - a stored top of 0 is falsy, so such a section is always replaced by the next one
    (`Detector.ZeroTopIsReplaced`). With offset 0 and the container flush with the
    viewport top, this is exactly where a navigation leaves its section, which then loses
    to the next section (`Detector.NavigatedSectionIsReplaced`);
  - with the container's top edge away from the viewport top, a stored raw top is
    compared with a relative top (`Detector.RawTopKeepsEarlierSection`).
- A navigation settles only when a poll observes exactly its target. The browser clamps
  `scrollTop` to the scrollable range (0 up to the content height minus the visible
  height), so a target outside that range is never observed and the flag stays set for
  good. For example, a first section at top 0 with offset 80 gives target -80. A `Tick`
  here may carry any integer, so the settling lemmas
  (`MenuProperties.NavigationSettlesOnArrival`, `MenuProperties.TickAtTarget`,
  `MenuProperties.ArrivalPublishesLatestDetection`) describe an arrival that the page may
  never produce.
- Registering a section does not run detection. Detection runs only when the effect is
  set up and on each scroll event, so registering does not change `active`.
- `active` is updated even while a navigation is in flight. Only the `onActiveChange`
  callback is gated.

## Model

| member | source | states |
|---|---|---|
| Refs.Empty | src/index.ts:30-31 | the stores start empty: no id has a handle |
| Refs.Register | src/index.ts:33-34 | after registering `h` under `id`, looking up `id` gives `h` and every other id's lookup is unchanged; a new id is enumerated last, while an existing id keeps its place; the store stays well formed |
| Refs.RegisterOverwrites | src/index.ts:33-34 | registering twice under one id is the same as registering only the second handle |
| Detector.Visit | src/index.ts:77-82 | one iteration: a falsy stored dimension (undefined or 0) always lets the entry replace the choice, so the first entry is always taken; with a truthy stored dimension the entry replaces the choice exactly when its relative top is at or above the threshold and greater than the stored dimension, and otherwise the choice is kept |
| Detector.Scan | src/index.ts:70-83 | the two loop variables are undefined exactly when there are no sections; otherwise together they hold the id and the raw top of one of the sections |
| Detector.Detect | src/index.ts:69-85 | the id passed to `setActive` is absent exactly when no section is registered, and is otherwise the id of one of the sections |
| Detector.DetectActiveSection | src/index.ts:69-86 | the loop computes the fold's result, absent exactly for an empty registry |
| Detector.DetectAtViewportTop | src/index.ts:73-82 | with the container's top edge flush with the viewport top (`containerTop = 0`) and no top equal to 0: the first id if the first top is below the threshold; otherwise the earliest id with the largest top among the tops at or above the threshold, which always exists |
| Detector.ScanTracksClosest | src/index.ts:79-81 | with the container's top edge flush with the viewport top, no top 0 and the first top at or above the threshold, the fold after each prefix holds the earliest entry with the largest top at or above the threshold: the strict `>` keeps the earlier entry on a tie |
| Detector.ClosestIsUnique | src/index.ts:73-82 | the reference outcome that `DetectAtViewportTop` compares the loop against names at most one section |
| Detector.DetectFallsBackToFirst | src/index.ts:79-81 | when no section's relative top is at or above the threshold and the first raw top is not 0, the first registered id is active, for any container position |
| Detector.FirstOfThreeIsActive | src/index.ts:73-85 | tops -50, 120, 800 at offset 0 make the first id active |
| Detector.SecondOfThreeIsActive | src/index.ts:73-85 | tops -400, -20, 300 at offset 0 make the second id active |
| Detector.ZeroTopIsReplaced | src/index.ts:79-81 | a section stored with top 0 is replaced by the next section even when that section is below the threshold |
| Detector.FirstBelowThresholdStaysActive | src/index.ts:79-81 | with the container's top edge at or below the viewport top (`containerTop >= 0`), a first section whose relative top is below the threshold and whose raw top is not 0 stays active over every later section, candidates included |
| Detector.FirstBelowThresholdBeatsCandidate | src/index.ts:79-81 | a first section below the threshold (top 100) stays active over a later candidate (top -20), because a later section must exceed the stored top |
| Detector.CandidateWinsAboveViewportTop | src/index.ts:77-81 | with the container's top edge 1000 pixels above the viewport top, a later candidate (relative top -20) does replace a first section below the threshold (raw top -900) |
| Detector.NavigatedSectionIsReplaced | src/index.ts:79-81 | with offset 0 and the container's top edge flush with the viewport top, a section at top 0 (where a navigation leaves it) is replaced by the next section, although that section is below the threshold |
| Detector.RawTopKeepsEarlierSection | src/index.ts:77-80 | with the container's top edge 100 pixels below the viewport top, the raw stored top beats a closer candidate's relative top, so the earlier section stays active |
| Menu.Entries | src/index.ts:75-77 | the detector sees every registered section once, in enumeration order, each measured by its own handle |
| Menu.TargetPutsSectionAtOffset | src/index.ts:43-47 | for a sub-element container whose own rectangle stays put while it scrolls, scrolling to the target moves the section to exactly `offset` below the container's top |
| Menu.HandleTriggerClick | src/index.ts:35-65 | `isTransitioning` is set in every case; an unregistered id issues no scroll request and adds no poll; a registered id requests `scrollTop + (sectionTop - containerTop) - offset` and appends exactly that target to the polls, keeping the earlier polls; `active` and the stores are unchanged |
| Menu.Remaining | src/index.ts:56-60 | no poll waiting for the observed position remains; for every other target, the number of polls waiting for it is unchanged |
| Menu.PollTick | src/index.ts:56-61 | a poll round clears `isTransitioning` exactly when some poll's target equals the observed `scrollTop`, removes those polls, and leaves `active` and the stores alone |
| Menu.HandleScroll | src/index.ts:73-89 | a scroll stores the detector's result whether or not a navigation is in flight; the result is absent exactly when no section is registered, and otherwise is a registered id |
| Menu.Step | src/index.ts:33-89 | only clicks request scrolls; only clicks and poll rounds change `isTransitioning` |
| Menu.Notification | src/index.ts:97-106 | the callback fires exactly when `active` or `isTransitioning` changed and `isTransitioning` is false; its payload carries the current `active`, `isTransitioning = false` and the current stores |
| MenuProperties.GateHoldsWhileTransitioning | src/index.ts:97-106 | during a navigation, a run with no poll round never fires the callback and keeps the flag set |
| MenuProperties.ArrivalPublishesLatestDetection | src/index.ts:56-106 | a scroll during a navigation updates `active` silently; the poll that sees its target then fires the callback once with that latest `active` |
| MenuProperties.TickAtTarget | src/index.ts:56-61 | during a navigation, the poll round at a waiting target requests nothing, clears the flag, removes that target's polls, leaves the counts of other targets unchanged and fires the callback once with the unchanged `active` |
| MenuProperties.SettledTicksAreSilent | src/index.ts:56-61 | once the flag is clear, further poll rounds never fire the callback and leave `active` alone |
| MenuProperties.NavigationSettlesOnArrival | src/index.ts:38-61 | a click on a registered section followed by the poll round at its target requests that target once, clears the flag, removes that target's polls, leaves other polls unchanged and fires the callback once with the unchanged `active` |
| MenuProperties.StalePollEndsNewerNavigation | src/index.ts:56-61 | after clicks on `a` and then `b`, `a`'s poll at its own target clears the flag and fires the callback while `b`'s poll still waits |
| MenuProperties.StuckWithoutPolls | src/index.ts:38-42 | with the flag set and no poll waiting, a run in which no click names a section never clears the flag, adds no poll, requests no scroll and fires no callback |
| MenuProperties.UnresolvedClickNeverSettles | src/index.ts:38-62 | a click on an unregistered id, with no poll waiting, leaves the flag set for good unless a later click names a section |
| OffsetTop.GetOffsetTop | src/utils/getOffsetTop.ts:11-20 | the loop returns the sum of `offsetTop` over the whole `offsetParent` chain: 0 for null, and the element's own `offsetTop` when it has no parent |
| OffsetTop.GetOffsetTopUnfolds | src/utils/getOffsetTop.ts:14-17 | an element's distance is its own `offsetTop` plus its parent's distance |

## Left out

- React hook machinery is not modelled: `useState`, `useEffect`, `useCallback`, `useMemo`,
  render timing, batching and dependency arrays. Each event is one render, and the
  `onActiveChange` effect compares consecutive states. `onActiveChange` is assumed to keep
  its identity; an inline callback whose identity changes on each render would re-run the
  effect without any state change.
- The callback run on first mount (with `active` still undefined) is not modelled.
- Detection when the effect is set up (src/index.ts:88) is the same computation as a
  `Scroll` event and is modelled as one.
- DOM calls become numbers or recorded requests: `getBoundingClientRect` (a `View`),
  `scrollTo` (the `requests` of a `Trace`), and `preventDefault`, which is dropped.
- Removing the scroll listener when the container or offset changes (src/index.ts:89-93)
  is not modelled.
- The smooth-scroll animation and `setInterval` timing are not modelled. A `Tick` is one
  round in which every running poll observes the same `scrollTop`.
- Scroll positions are integer pixels. Sub-pixel floating-point values, which can keep
  the exact-equality test from ever succeeding, are not modelled.
- The browser's clamping of `scrollTop` to the scrollable range is not modelled. `Tick`
  values are unconstrained, so a run may reach a target that the page cannot scroll to.
- Ids are assumed non-numeric. JavaScript enumerates integer-like keys before the other
  keys, in numeric order, instead of in insertion order.
- Ids are assumed not to be `Object.prototype` property names. The stores are plain
  objects, so assigning `"__proto__"` replaces the prototype, and `Object.entries` never
  lists it. Looking up an unregistered `"constructor"` yields an inherited function, and
  the click handler then throws on it.
- Menu.Notification: the payload's `sectionRefs` and `triggerRefs` are `map` snapshots of
  the stores at the time of the callback. The source passes the live `sectionRefs.current`
  and `triggerRefs.current` objects (src/index.ts:102-103), so a consumer that keeps them
  also sees later registrations, and can enumerate their keys in registration order,
  which a `map` does not record.
- React calls ref callbacks with null on unmount. The stores would then hold null, and
  detection would throw on it. Handles here are never null, and nothing is ever removed
  from the stores.
- The default container `scrollableElement || document.documentElement` (src/index.ts:28)
  is not modelled. The container is always present, so the `scrollableContainer` test in
  the click handler always holds.
- `ActiveMenuProvider.tsx`, `ActiveMenuContext.ts`, `useActiveMenuContext.ts` and
  `types.ts` are not modelled. They are React context plumbing and type declarations.
