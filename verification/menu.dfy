/**
 * The `useActiveMenu` hook as a state machine. The React state (`active`,
 * `isTransitioning`), the refs (`sectionRefs`, `triggerRefs`) and the completion polls
 * started by `handleTriggerClick` form one immutable `State`; each handler is a pure
 * step, and the effect that calls `onActiveChange` is a function of two consecutive
 * states. The page is read only through the `View` an event carries.
 */
module Menu {
  import opened Wrappers
  import opened Refs
  import opened Detector

  /**
   * What the handlers read from the page when an event is handled: the container's
   * `scrollTop`, the top edge of its bounding rectangle, and the top edge of each section,
   * both edges measured from the top of the viewport.
   */
  datatype View<!S> = View(scrollTop: int, containerTop: int, top: S -> int)

  /**
   * The hook's state. `pending` lists the scroll targets of the polls that are still
   * running, one per resolved click, oldest first.
   */
  datatype State<S, T> = State(
    active: Option<Id>,
    isTransitioning: bool,
    pending: seq<int>,
    sections: Registry<S>,
    triggers: Registry<T>)
  {
    ghost predicate Valid() {
      sections.Valid() && triggers.Valid()
    }
  }

  /** The state of a freshly mounted hook. */
  function Init<S, T>(): (s: State<S, T>)
    ensures s.Valid()
  {
    State(None, false, [], Empty(), Empty())
  }

  /** The events the hook reacts to. */
  datatype Event<!S, T> =
    | RegisterSection(id: Id, section: S)   // the ref callback of `registerSectionRef(id)`
    | RegisterTrigger(id: Id, trigger: T)   // the ref callback of `registerTriggerRef(id)`
    | Click(id: Id, view: View<S>)          // the handler of `handleTriggerClick(id)`
    | Scroll(view: View<S>)                 // a scroll event of the container
    | Tick(scrollTop: int)                  // one round of the completion polls

  /** A new state and the `scrollTo` request a step issued, if any. */
  datatype Transition<S, T> = Transition(next: State<S, T>, scrollTo: Option<int>)

  /** The object passed to `onActiveChange`. */
  datatype Attributes<S, T> = Attributes(
    active: Option<Id>,
    isTransitioning: bool,
    sectionRefs: map<Id, S>,
    triggerRefs: map<Id, T>)

  /** The registered sections, measured, in enumeration order. */
  function Entries<S>(sections: Registry<S>, top: S -> int): (es: seq<Entry>)
    requires sections.Valid()
    ensures |es| == |sections.order|
    ensures forall i :: 0 <= i < |es| ==>
      es[i].id == sections.order[i] && es[i].id in sections.handles && es[i].top == top(sections.handles[es[i].id])
  {
    seq(|sections.order|, i requires 0 <= i < |sections.order| && sections.order[i] in sections.handles =>
      Entry(sections.order[i], top(sections.handles[sections.order[i]])))
  }

  /** Where `handleTriggerClick` asks the container to scroll to. */
  function TargetOffset(scrollTop: int, sectionTop: int, containerTop: int, offset: int): int {
    scrollTop + (sectionTop - containerTop) - offset
  }

  /**
   * Scrolling a sub-element container from `scrollTop` to the target moves every section's
   * top edge up by the distance scrolled, while the container's own rectangle stays put;
   * the navigated section then sits exactly `offset` pixels below the container's top, the
   * threshold the detector compares against. (When the container is the document element,
   * its rectangle moves with the page instead, and this does not apply.)
   */
  lemma TargetPutsSectionAtOffset(scrollTop: int, sectionTop: int, containerTop: int, offset: int)
    ensures var moved := TargetOffset(scrollTop, sectionTop, containerTop, offset) - scrollTop;
      (sectionTop - moved) - containerTop == offset
  {
  }

  /**
   * `handleTriggerClick(id)`: `isTransitioning` is set before the section is looked up,
   * so it is set even when `id` has no section. A registered section yields a scroll
   * request to its target and one more poll waiting for that target; earlier polls stay.
   */
  function HandleTriggerClick<S, T>(s: State<S, T>, offset: int, id: Id, view: View<S>): (t: Transition<S, T>)
    requires s.Valid()
    ensures t.next.Valid()
    ensures t.next.isTransitioning
    ensures t.next.active == s.active && t.next.sections == s.sections && t.next.triggers == s.triggers
    ensures id !in s.sections.handles ==> t.scrollTo.None? && t.next.pending == s.pending
    ensures id in s.sections.handles ==>
      && t.scrollTo == Some(TargetOffset(view.scrollTop, view.top(s.sections.handles[id]), view.containerTop, offset))
      && t.next.pending == s.pending + [t.scrollTo.value]
  {
    var transitioning := s.(isTransitioning := true);
    match s.sections.Lookup(id)
    case None => Transition(transitioning, None)
    case Some(section) =>
      var target := TargetOffset(view.scrollTop, view.top(section), view.containerTop, offset);
      Transition(transitioning.(pending := s.pending + [target]), Some(target))
  }

  /** The polls that keep running after observing `scrollTop`: all whose target differs. */
  function Remaining(pending: seq<int>, scrollTop: int): (r: seq<int>)
    ensures scrollTop !in r
    ensures forall t :: t != scrollTop ==> multiset(r)[t] == multiset(pending)[t]
    ensures |r| + multiset(pending)[scrollTop] == |pending|
  {
    if |pending| == 0 then []
    else
      assert pending == [pending[0]] + pending[1..];
      if pending[0] == scrollTop then Remaining(pending[1..], scrollTop)
      else [pending[0]] + Remaining(pending[1..], scrollTop)
  }

  /**
   * One round of the polls: every poll whose target equals the observed `scrollTop` is
   * cleared and sets `isTransitioning` to false; the others keep waiting.
   */
  function PollTick<S, T>(s: State<S, T>, scrollTop: int): (s': State<S, T>)
    ensures s'.pending == Remaining(s.pending, scrollTop)
    ensures s'.isTransitioning <==> s.isTransitioning && scrollTop !in s.pending
    ensures s'.active == s.active && s'.sections == s.sections && s'.triggers == s.triggers
  {
    s.(pending := Remaining(s.pending, scrollTop),
       isTransitioning := if scrollTop in s.pending then false else s.isTransitioning)
  }

  /**
   * The scroll listener runs `detectActiveSection` and always stores its result, whether
   * or not a navigation is in flight. The result is absent exactly when no section is
   * registered, and is otherwise a registered id.
   */
  function HandleScroll<S, T>(s: State<S, T>, offset: int, view: View<S>): (s': State<S, T>)
    requires s.Valid()
    ensures s'.active == Detect(Entries(s.sections, view.top), view.containerTop, offset)
    ensures s'.active.None? <==> |s.sections.order| == 0
    ensures s'.active.Some? ==> s'.active.value in s.sections.handles
    ensures s'.isTransitioning == s.isTransitioning && s'.pending == s.pending
    ensures s'.sections == s.sections && s'.triggers == s.triggers
  {
    s.(active := Detect(Entries(s.sections, view.top), view.containerTop, offset))
  }

  /** The hook's reaction to one event. */
  function Step<S, T>(s: State<S, T>, offset: int, e: Event<S, T>): (t: Transition<S, T>)
    requires s.Valid()
    ensures t.next.Valid()
    ensures !e.Click? ==> t.scrollTo.None?
    ensures e.Tick? || e.Click? || t.next.isTransitioning == s.isTransitioning
  {
    match e
    case RegisterSection(id, section) => Transition(s.(sections := Register(s.sections, id, section)), None)
    case RegisterTrigger(id, trigger) => Transition(s.(triggers := Register(s.triggers, id, trigger)), None)
    case Click(id, view) => HandleTriggerClick(s, offset, id, view)
    case Scroll(view) => Transition(HandleScroll(s, offset, view), None)
    case Tick(scrollTop) => Transition(PollTick(s, scrollTop), None)
  }

  /**
   * The effect around `onActiveChange`: it runs when `active` or `isTransitioning` changed
   * between two renders, and calls back only when no navigation is in flight.
   */
  function Notification<S, T>(prev: State<S, T>, next: State<S, T>): (n: Option<Attributes<S, T>>)
    ensures n.Some? <==> !next.isTransitioning && (prev.active != next.active || prev.isTransitioning != next.isTransitioning)
    ensures n.Some? ==> && n.value.active == next.active
                        && !n.value.isTransitioning
                        && n.value.sectionRefs == next.sections.handles
                        && n.value.triggerRefs == next.triggers.handles
  {
    if !next.isTransitioning && (prev.active != next.active || prev.isTransitioning != next.isTransitioning) then
      Some(Attributes(next.active, next.isTransitioning, next.sections.handles, next.triggers.handles))
    else None
  }

  /** What a run of events leaves behind. */
  datatype Trace<S, T> = Trace(final: State<S, T>, notifications: seq<Attributes<S, T>>, requests: seq<int>)

  /** The hook's reaction to a sequence of events, one render per event. */
  function Run<S, T>(s: State<S, T>, offset: int, events: seq<Event<S, T>>): (tr: Trace<S, T>)
    requires s.Valid()
    ensures tr.final.Valid()
    ensures |tr.notifications| <= |events| && |tr.requests| <= |events|
    decreases |events|
  {
    if |events| == 0 then Trace(s, [], [])
    else
      var t := Step(s, offset, events[0]);
      var rest := Run(t.next, offset, events[1..]);
      Trace(rest.final,
            Notification(s, t.next).ToSeq() + rest.notifications,
            t.scrollTo.ToSeq() + rest.requests)
  }
}
