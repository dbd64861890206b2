/** The readiness latch of the client plugin watcher (`scripts/dev-web.ts`), over every order of callbacks. */
module Readiness {
  import opened Collections
  import opened Wrappers

  /** The options object tsdown hands to the hook; each returned bundle has its own. */
  datatype Options = Options(id: nat)

  datatype State = State(initialized: set<Options>, initializedBuilds: nat, expectedBuilds: Option<nat>, resolved: bool)

  /** `Success` is a run of the hook; `Built` is the return of `build`, with the options of its bundles. */
  datatype Event = Success(options: Options) | Built(bundles: set<Options>)

  function Init(): State {
    State({}, 0, None, false)
  }

  function Step(s: State, e: Event): State {
    match e
    case Success(options) =>
      if options in s.initialized then s
      else
        var more := s.initializedBuilds + 1;
        s.(initialized := s.initialized + {options}, initializedBuilds := more,
           resolved := s.resolved || (s.expectedBuilds.Some? && more >= s.expectedBuilds.value))
    case Built(bundles) =>
      s.(expectedBuilds := Some(|bundles|), resolved := s.resolved || s.initializedBuilds >= |bundles|)
  }

  function Run(events: seq<Event>): State {
    if events == [] then Init() else Step(Run(events[..|events| - 1]), events[|events| - 1])
  }

  /** `build` returns at most once in a run. */
  ghost predicate BuildsOnce(events: seq<Event>) {
    forall i, j | 0 <= i < j < |events| && events[i].Built? :: !events[j].Built?
  }

  ghost predicate Succeeded(events: seq<Event>, options: Options) {
    Success(options) in events
  }

  ghost predicate ReturnedBundles(events: seq<Event>, bundles: set<Options>) {
    Built(bundles) in events
  }

  /** What the counters mean: distinct successes are counted, and the latch is open once they reach the bundles. */
  ghost predicate Counts(events: seq<Event>, s: State) {
    (forall o :: o in s.initialized <==> Succeeded(events, o)) &&
    s.initializedBuilds == |s.initialized| &&
    (forall bundles | ReturnedBundles(events, bundles) :: s.expectedBuilds == Some(|bundles|)) &&
    (s.expectedBuilds.Some? ==> exists bundles :: ReturnedBundles(events, bundles)) &&
    (s.resolved <==> s.expectedBuilds.Some? && s.initializedBuilds >= s.expectedBuilds.value)
  }

  lemma MemberOfAppend(events: seq<Event>, e: Event, f: Event)
    ensures f in events + [e] <==> f in events || f == e
  {
  }

  lemma CountsStep(events: seq<Event>, e: Event)
    requires Counts(events, Run(events)) && (e.Built? ==> forall bundles :: !ReturnedBundles(events, bundles))
    ensures Counts(events + [e], Step(Run(events), e))
  {
    var s, t := Run(events), Step(Run(events), e);
    forall o ensures o in t.initialized <==> Succeeded(events + [e], o) { MemberOfAppend(events, e, Success(o)); }
    forall bundles
      ensures ReturnedBundles(events + [e], bundles) <==> ReturnedBundles(events, bundles) || e == Built(bundles)
    {
      MemberOfAppend(events, e, Built(bundles));
    }
    if e.Success? && s.expectedBuilds.Some? {
      var bundles :| ReturnedBundles(events, bundles);
      assert ReturnedBundles(events + [e], bundles);
    }
    if e.Built? { assert ReturnedBundles(events + [e], e.bundles); }
  }

  lemma {:induction false} RunCounts(events: seq<Event>)
    requires BuildsOnce(events)
    ensures Counts(events, Run(events))
  {
    if events != [] {
      var n := |events| - 1;
      assert events == events[..n] + [events[n]];
      RunCounts(events[..n]);
      if events[n].Built? {
        forall bundles ensures !ReturnedBundles(events[..n], bundles) {
          assert forall i | 0 <= i < n :: !events[i].Built?;
        }
      }
      CountsStep(events[..n], events[n]);
    }
  }

  /**
   * When hooks only run for returned bundles, the wait is over exactly once `build` has returned and every
   * bundle has had its first success, whichever came first and however often a hook ran.
   */
  lemma ResolvedExactlyWhenAllBuilt(events: seq<Event>, bundles: set<Options>)
    requires BuildsOnce(events) && ReturnedBundles(events, bundles)
    requires forall o | Succeeded(events, o) :: o in bundles
    ensures Run(events).resolved <==> forall o | o in bundles :: Succeeded(events, o)
  {
    RunCounts(events);
    var s := Run(events);
    assert s.initialized <= bundles;
    SubsetSize(s.initialized, bundles);
  }

  /** Before `build` returns nothing is ready. */
  lemma NotResolvedBeforeReturn(events: seq<Event>)
    requires BuildsOnce(events) && forall bundles :: !ReturnedBundles(events, bundles)
    ensures !Run(events).resolved
  {
    RunCounts(events);
  }

  /** A hook run for other options counts as well and can end the wait while a bundle is still building. */
  lemma StraySuccessResolvesEarly()
    ensures var bundle, stray := Options(0), Options(1);
            var events := [Built({bundle}), Success(stray)];
            Run(events).resolved && !Succeeded(events, bundle)
  {
    var bundle, stray := Options(0), Options(1);
    var first := [Built({bundle})];
    var events := [Built({bundle}), Success(stray)];
    assert first[..0] == [] && events[..1] == first;
    assert Run(first) == Step(Init(), Built({bundle}));
    assert Run(events) == Step(Run(first), Success(stray));
  }

  class ReadinessLatch {
    var initialized: set<Options>
    var initializedBuilds: nat
    var expectedBuilds: Option<nat>
    var resolved: bool

    ghost function View(): State
      reads this
    {
      State(initialized, initializedBuilds, expectedBuilds, resolved)
    }

    constructor ()
      ensures View() == Init()
    {
      initialized, initializedBuilds, expectedBuilds, resolved := {}, 0, None, false;
    }

    method OnSuccess(options: Options)
      modifies this
      ensures View() == Step(old(View()), Success(options))
    {
      if options in initialized { return; }
      initialized := initialized + {options};
      initializedBuilds := initializedBuilds + 1;
      if expectedBuilds.Some? && initializedBuilds >= expectedBuilds.value { resolved := true; }
    }

    method BuildReturned(bundles: set<Options>)
      modifies this
      ensures View() == Step(old(View()), Built(bundles))
    {
      expectedBuilds := Some(|bundles|);
      if initializedBuilds >= |bundles| { resolved := true; }
    }
  }
}
