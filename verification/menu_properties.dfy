/**
 * Properties of runs of the hook: the callback gate, the completion polls, and the
 * navigation flag that an unresolved click leaves set.
 */
module MenuProperties {
  import opened Wrappers
  import opened Refs
  import opened Detector
  import opened Menu

  /** No event in the run is a poll round. */
  ghost predicate NoTicks<S, T>(events: seq<Event<S, T>>) {
    forall i :: 0 <= i < |events| ==> !events[i].Tick?
  }

  /** Every event in the run is a poll round. */
  ghost predicate OnlyTicks<S, T>(events: seq<Event<S, T>>) {
    forall i :: 0 <= i < |events| ==> events[i].Tick?
  }

  /**
   * No click in the run names a section: its id is neither registered at the start nor
   * registered by an earlier event of the run.
   */
  ghost predicate NeverResolves<S, T>(sections: Registry<S>, events: seq<Event<S, T>>) {
    forall i :: 0 <= i < |events| && events[i].Click? ==>
      && events[i].id !in sections.handles
      && forall j :: 0 <= j < i && events[j].RegisterSection? ==> events[j].id != events[i].id
  }

  /** A run that starts with `e` is that event's step followed by the run of the rest. */
  lemma RunFirst<S, T>(s: State<S, T>, offset: int, e: Event<S, T>, rest: seq<Event<S, T>>)
    requires s.Valid()
    ensures var t := Step(s, offset, e);
      var tail := Run(t.next, offset, rest);
      Run(s, offset, [e] + rest)
        == Trace(tail.final, Notification(s, t.next).ToSeq() + tail.notifications, t.scrollTo.ToSeq() + tail.requests)
  {
    assert ([e] + rest)[1..] == rest;
  }

  /**
   * While a navigation is in flight and no poll round happens, the flag stays set and
   * `onActiveChange` is never called, however many scroll, click and registration events
   * arrive.
   */
  lemma {:induction false} GateHoldsWhileTransitioning<S, T>(s: State<S, T>, offset: int, events: seq<Event<S, T>>)
    requires s.Valid() && s.isTransitioning
    requires NoTicks(events)
    ensures Run(s, offset, events).notifications == []
    ensures Run(s, offset, events).final.isTransitioning
    decreases |events|
  {
    if |events| > 0 {
      var t := Step(s, offset, events[0]);
      assert NoTicks(events[1..]) by {
        forall i | 0 <= i < |events| - 1
          ensures !events[1..][i].Tick?
        {
          assert events[1..][i] == events[i + 1];
        }
      }
      GateHoldsWhileTransitioning(t.next, offset, events[1..]);
    }
  }

  /**
   * A scroll during a navigation still updates `active` to the detector's result, but
   * does not call `onActiveChange`; the poll that then sees its target clears the flag and
   * calls back once, carrying that latest result.
   */
  lemma ArrivalPublishesLatestDetection<S, T>(s: State<S, T>, offset: int, view: View<S>, target: int)
    requires s.Valid() && s.isTransitioning
    requires target in s.pending
    ensures var s1 := HandleScroll(s, offset, view);
      && s1.active == Detect(Entries(s.sections, view.top), view.containerTop, offset)
      && Notification(s, s1).None?
      && Notification(s1, PollTick(s1, target)).Some?
      && Notification(s1, PollTick(s1, target)).value.active == s1.active
      && !Notification(s1, PollTick(s1, target)).value.isTransitioning
  {
  }

  /** Once no navigation is in flight, poll rounds alone never call `onActiveChange`. */
  lemma {:induction false} SettledTicksAreSilent<S, T>(s: State<S, T>, offset: int, events: seq<Event<S, T>>)
    requires s.Valid() && !s.isTransitioning
    requires OnlyTicks(events)
    ensures Run(s, offset, events).notifications == []
    ensures !Run(s, offset, events).final.isTransitioning
    ensures Run(s, offset, events).final.active == s.active
    decreases |events|
  {
    if |events| > 0 {
      var t := Step(s, offset, events[0]);
      assert OnlyTicks(events[1..]) by {
        forall i | 0 <= i < |events| - 1
          ensures events[1..][i].Tick?
        {
          assert events[1..][i] == events[i + 1];
        }
      }
      SettledTicksAreSilent(t.next, offset, events[1..]);
    }
  }

  /**
   * A click on a registered section requests its target and adds one poll; the poll
   * round that observes the target ends the navigation, removes every poll waiting for
   * that target, leaves the other polls as they were, and calls `onActiveChange` once.
   */
  lemma NavigationSettlesOnArrival<S, T>(s: State<S, T>, offset: int, id: Id, view: View<S>)
    requires s.Valid()
    requires id in s.sections.handles
    ensures var target := TargetOffset(view.scrollTop, view.top(s.sections.handles[id]), view.containerTop, offset);
      var tr := Run(s, offset, [Click(id, view), Tick(target)]);
      && tr.requests == [target]
      && !tr.final.isTransitioning
      && target !in tr.final.pending
      && (forall t :: t != target ==> multiset(tr.final.pending)[t] == multiset(s.pending)[t])
      && |tr.notifications| == 1
      && tr.notifications[0].active == s.active
      && !tr.notifications[0].isTransitioning
  {
    var target := TargetOffset(view.scrollTop, view.top(s.sections.handles[id]), view.containerTop, offset);
    var s1 := Step(s, offset, Click(id, view)).next;
    assert s1.pending == s.pending + [target];
    TickAtTarget(s1, offset, target);
    forall t | t != target
      ensures multiset(s1.pending)[t] == multiset(s.pending)[t]
    {
    }
    RunFirst(s, offset, Click(id, view), [Tick(target)]);
    assert [Click(id, view)] + [Tick(target)] == [Event<S, T>.Click(id, view), Tick(target)];
    assert Notification(s, s1).None?;
  }

  /** The poll round that sees a waiting target during a navigation. */
  lemma TickAtTarget<S, T>(s: State<S, T>, offset: int, target: int)
    requires s.Valid() && s.isTransitioning
    requires target in s.pending
    ensures var tr := Run(s, offset, [Tick(target)]);
      && tr.requests == []
      && !tr.final.isTransitioning
      && target !in tr.final.pending
      && (forall t :: t != target ==> multiset(tr.final.pending)[t] == multiset(s.pending)[t])
      && tr.notifications == Notification(s, tr.final).ToSeq()
      && |tr.notifications| == 1
      && tr.notifications[0].active == s.active
      && !tr.notifications[0].isTransitioning
  {
    RunFirst(s, offset, Tick(target), []);
    assert [Tick(target)] + [] == [Event<S, T>.Tick(target)];
  }

  /**
   * Polls are never cancelled: after a click on `a` and then a click on `b`, the poll of
   * the first navigation, on seeing its own target, clears the flag and calls
   * `onActiveChange` although the scroll to `b` is still in flight and its poll still waits.
   */
  lemma StalePollEndsNewerNavigation<S, T>(s: State<S, T>, offset: int, a: Id, va: View<S>, b: Id, vb: View<S>)
    requires s.Valid()
    requires a in s.sections.handles && b in s.sections.handles
    requires TargetOffset(va.scrollTop, va.top(s.sections.handles[a]), va.containerTop, offset)
          != TargetOffset(vb.scrollTop, vb.top(s.sections.handles[b]), vb.containerTop, offset)
    ensures var ta := TargetOffset(va.scrollTop, va.top(s.sections.handles[a]), va.containerTop, offset);
      var tb := TargetOffset(vb.scrollTop, vb.top(s.sections.handles[b]), vb.containerTop, offset);
      var tr := Run(s, offset, [Click(a, va), Click(b, vb), Tick(ta)]);
      && tr.requests == [ta, tb]
      && !tr.final.isTransitioning
      && tb in tr.final.pending
      && ta !in tr.final.pending
      && |tr.notifications| == 1
      && !tr.notifications[0].isTransitioning
  {
    var ta := TargetOffset(va.scrollTop, va.top(s.sections.handles[a]), va.containerTop, offset);
    var tb := TargetOffset(vb.scrollTop, vb.top(s.sections.handles[b]), vb.containerTop, offset);
    var s1 := Step(s, offset, Click(a, va)).next;
    assert ta in s1.pending by {
      assert s1.pending == s.pending + [ta];
    }
    ClickThenStaleTick(s1, offset, b, vb, ta);
    RunFirst(s, offset, Click(a, va), [Click(b, vb), Tick(ta)]);
    assert [Click(a, va)] + [Click(b, vb), Tick(ta)] == [Event<S, T>.Click(a, va), Click(b, vb), Tick(ta)];
    assert Notification(s, s1).None?;
  }

  /** A second click during a navigation, followed by the poll round at the first target. */
  lemma ClickThenStaleTick<S, T>(s: State<S, T>, offset: int, b: Id, vb: View<S>, ta: int)
    requires s.Valid() && s.isTransitioning
    requires ta in s.pending
    requires b in s.sections.handles
    requires ta != TargetOffset(vb.scrollTop, vb.top(s.sections.handles[b]), vb.containerTop, offset)
    ensures var tb := TargetOffset(vb.scrollTop, vb.top(s.sections.handles[b]), vb.containerTop, offset);
      var tr := Run(s, offset, [Click(b, vb), Tick(ta)]);
      && tr.requests == [tb]
      && !tr.final.isTransitioning
      && tb in tr.final.pending
      && ta !in tr.final.pending
      && |tr.notifications| == 1
      && !tr.notifications[0].isTransitioning
  {
    var tb := TargetOffset(vb.scrollTop, vb.top(s.sections.handles[b]), vb.containerTop, offset);
    var s2 := Step(s, offset, Click(b, vb)).next;
    assert s2.pending == s.pending + [tb];
    StaleTargetSeen(s2, offset, ta, tb);
    RunFirst(s, offset, Click(b, vb), [Tick(ta)]);
    assert [Click(b, vb)] + [Tick(ta)] == [Event<S, T>.Click(b, vb), Tick(ta)];
    assert Notification(s, s2).None?;
  }

  /** The poll round that sees one of two different waiting targets. */
  lemma StaleTargetSeen<S, T>(s: State<S, T>, offset: int, ta: int, tb: int)
    requires s.Valid() && s.isTransitioning
    requires ta in s.pending && tb in s.pending && ta != tb
    ensures var tr := Run(s, offset, [Tick(ta)]);
      && tr.requests == []
      && !tr.final.isTransitioning
      && tb in tr.final.pending
      && ta !in tr.final.pending
      && |tr.notifications| == 1
      && !tr.notifications[0].isTransitioning
  {
    var s3 := Step(s, offset, Tick(ta)).next;
    assert s3 == PollTick(s, ta);
    assert multiset(s3.pending)[tb] == multiset(s.pending)[tb];
    RunFirst(s, offset, Tick(ta), []);
    assert [Tick(ta)] + [] == [Event<S, T>.Tick(ta)];
  }

  /**
   * A run that keeps the navigation flag set and has no poll waiting stays that way: no
   * poll is ever added, so nothing clears the flag and `onActiveChange` is never called.
   */
  lemma {:induction false} StuckWithoutPolls<S, T>(s: State<S, T>, offset: int, events: seq<Event<S, T>>)
    requires s.Valid() && s.isTransitioning && s.pending == []
    requires NeverResolves(s.sections, events)
    ensures Run(s, offset, events).final.isTransitioning
    ensures Run(s, offset, events).final.pending == []
    ensures Run(s, offset, events).notifications == []
    ensures Run(s, offset, events).requests == []
    decreases |events|
  {
    if |events| > 0 {
      var e := events[0];
      var t := Step(s, offset, e);
      if e.Click? {
        assert e.id !in s.sections.handles;
      }
      assert t.next.isTransitioning && t.next.pending == [];
      assert NeverResolves(t.next.sections, events[1..]) by {
        forall i | 0 <= i < |events| - 1 && events[1..][i].Click?
          ensures events[1..][i].id !in t.next.sections.handles
        {
          assert events[1..][i] == events[i + 1];
          var id := events[i + 1].id;
          if e.RegisterSection? {
            assert e.id != id;
            assert t.next.sections.Lookup(id) == s.sections.Lookup(id);
          }
        }
      }
      StuckWithoutPolls(t.next, offset, events[1..]);
    }
  }

  /**
   * A click on an id with no registered section still sets `isTransitioning`, issues no
   * scroll request and starts no poll; unless a later click names a section, the flag is
   * never cleared and `onActiveChange` is never called again.
   */
  lemma UnresolvedClickNeverSettles<S, T>(s: State<S, T>, offset: int, id: Id, view: View<S>, events: seq<Event<S, T>>)
    requires s.Valid() && s.pending == []
    requires id !in s.sections.handles
    requires NeverResolves(s.sections, events)
    ensures Run(s, offset, [Click(id, view)] + events).final.isTransitioning
    ensures Run(s, offset, [Click(id, view)] + events).notifications == []
    ensures Run(s, offset, [Click(id, view)] + events).requests == []
  {
    var all := [Click(id, view)] + events;
    assert all[1..] == events;
    var t := Step(s, offset, all[0]);
    StuckWithoutPolls(t.next, offset, events);
  }
}
