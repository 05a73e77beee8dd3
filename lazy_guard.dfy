/**
 * The lazy-visit navigation guard installed when the application is built in
 * lazy mode: until a page has been shown every navigation proceeds; after
 * that, the first navigation to a path is cancelled, the path is marked
 * visited and the server is told about the visit.
 */
module LazyGuard {

  /** The endpoint the guard reports a visit to; the route's path is appended. */
  const VISIT_ENDPOINT := "/_saber/visit-page?route="

  /** The request string sent for a visit to `path`. */
  function VisitRequest(path: string): (r: string)
    ensures |r| == |VISIT_ENDPOINT| + |path|
    ensures r[..|VISIT_ENDPOINT|] == VISIT_ENDPOINT && r[|VISIT_ENDPOINT|..] == path
  {
    VISIT_ENDPOINT + path
  }

  /** Different paths give different requests, so the log says which path was reported. */
  lemma VisitRequestInjective(p: string, q: string)
    ensures VisitRequest(p) == VisitRequest(q) <==> p == q
  {
    if VisitRequest(p) == VisitRequest(q) {
      assert p == VisitRequest(p)[|VISIT_ENDPOINT|..];
    }
  }

  /**
   * The guard's state: whether a page has been shown, the set of paths marked
   * visited (the dictionary only ever stores `true`) and the log of requests
   * issued, oldest first.
   */
  datatype GuardState = GuardState(hasPrevPage: bool, visited: set<string>, requests: seq<string>)

  const INITIAL := GuardState(false, {}, [])

  /** What `beforeEach` decides (`next()` is allowed, `next(false)` is not) and the state after it. */
  datatype GuardResult = GuardResult(allowed: bool, state: GuardState)

  /**
   * The `beforeEach` callback. It never touches `hasPrevPage`, only adds to
   * the visited set and the log, issues at most one request, and once a page
   * has been shown leaves the path marked visited.
   */
  function BeforeEach(s: GuardState, path: string): (r: GuardResult)
    ensures r.state.hasPrevPage == s.hasPrevPage
    ensures s.visited <= r.state.visited && s.requests <= r.state.requests
    ensures |r.state.requests| <= |s.requests| + 1
    ensures s.hasPrevPage ==> path in r.state.visited
  {
    if !s.hasPrevPage || path in s.visited then GuardResult(true, s)
    else GuardResult(false, GuardState(s.hasPrevPage, s.visited + {path}, s.requests + [VisitRequest(path)]))
  }

  /** The `afterEach` callback: records that a page has been shown and changes nothing else. */
  function AfterEach(s: GuardState): (r: GuardState)
    ensures r.hasPrevPage && r.visited == s.visited && r.requests == s.requests
  {
    s.(hasPrevPage := true)
  }

  /**
   * A navigation as the router runs it: the guard first, and the after-hook
   * only when the navigation was confirmed.
   */
  function Navigate(s: GuardState, path: string): (r: GuardResult)
    ensures r.allowed == BeforeEach(s, path).allowed
    ensures r.state.hasPrevPage <==> s.hasPrevPage || r.allowed
    ensures r.state.visited == BeforeEach(s, path).state.visited
    ensures r.state.requests == BeforeEach(s, path).state.requests
  {
    var g := BeforeEach(s, path);
    if g.allowed then GuardResult(true, AfterEach(g.state)) else g
  }

  /** The two callbacks in any order the router may invoke them. */
  datatype Event = Before(path: string) | After

  function Apply(s: GuardState, e: Event): GuardState
  {
    match e
    case Before(path) => BeforeEach(s, path).state
    case After => AfterEach(s)
  }

  function Run(s: GuardState, events: seq<Event>): GuardState
    decreases |events|
  {
    if events == [] then s else Run(Apply(s, events[0]), events[1..])
  }

  predicate NoDuplicates(xs: seq<string>)
  {
    forall i, j :: 0 <= i < j < |xs| ==> xs[i] != xs[j]
  }

  /**
   * What every reachable state satisfies: nothing is visited or reported
   * before a page is shown, the log holds only visit requests, each path is
   * reported at most once, and a path is visited exactly when it was reported.
   */
  ghost predicate Consistent(s: GuardState)
  {
    && (!s.hasPrevPage ==> s.visited == {} && s.requests == [])
    && (forall i :: 0 <= i < |s.requests| ==> VISIT_ENDPOINT <= s.requests[i])
    && NoDuplicates(s.requests)
    && (forall p :: p in s.visited <==> VisitRequest(p) in s.requests)
  }

  /** `beforeEach` allows a navigation exactly when no page has been shown yet or the path was visited before. */
  lemma AllowedExactly(s: GuardState, path: string)
    ensures BeforeEach(s, path).allowed <==> !s.hasPrevPage || path in s.visited
    ensures BeforeEach(s, path).allowed ==> BeforeEach(s, path).state == s
  {
  }

  /** Before any page has been shown, every navigation proceeds and the state is untouched. */
  lemma AllowedBeforeFirstPage(s: GuardState, path: string)
    requires !s.hasPrevPage
    ensures BeforeEach(s, path) == GuardResult(true, s)
  {
  }

  /**
   * Once a page has been shown, a navigation to a path not yet visited is
   * cancelled, the path becomes visited and exactly one request is appended.
   */
  lemma CancelsFirstVisit(s: GuardState, path: string)
    requires s.hasPrevPage && path !in s.visited
    ensures !BeforeEach(s, path).allowed
    ensures BeforeEach(s, path).state.hasPrevPage
    ensures BeforeEach(s, path).state.visited == s.visited + {path}
    ensures BeforeEach(s, path).state.requests == s.requests + ["/_saber/visit-page?route=" + path]
  {
  }

  /** Each step keeps the invariant. */
  lemma ApplyConsistent(s: GuardState, e: Event)
    requires Consistent(s)
    ensures Consistent(Apply(s, e))
  {
    if e.Before? && s.hasPrevPage && e.path !in s.visited {
      var t := Apply(s, e);
      var req := VisitRequest(e.path);
      assert req !in s.requests;
      forall p
        ensures p in t.visited <==> VisitRequest(p) in t.requests
      {
        VisitRequestInjective(p, e.path);
      }
    }
  }

  /** Every state reachable from a consistent one is consistent. */
  lemma {:induction false} RunConsistent(s: GuardState, events: seq<Event>)
    requires Consistent(s)
    ensures Consistent(Run(s, events))
    decreases |events|
  {
    if events != [] {
      ApplyConsistent(s, events[0]);
      RunConsistent(Apply(s, events[0]), events[1..]);
    }
  }

  /** In particular: from start-up, no path is ever reported to the server twice. */
  lemma ReportedAtMostOnce(events: seq<Event>)
    ensures NoDuplicates(Run(INITIAL, events).requests)
    ensures forall p :: p in Run(INITIAL, events).visited <==> VisitRequest(p) in Run(INITIAL, events).requests
  {
    RunConsistent(INITIAL, events);
  }

  /**
   * The state only grows: `hasPrevPage` never goes back to false, the visited
   * set only gains paths and the log is only appended to.
   */
  lemma {:induction false} RunMonotone(s: GuardState, events: seq<Event>)
    ensures s.hasPrevPage ==> Run(s, events).hasPrevPage
    ensures s.visited <= Run(s, events).visited
    ensures s.requests <= Run(s, events).requests
    decreases |events|
  {
    if events != [] {
      RunMonotone(Apply(s, events[0]), events[1..]);
    }
  }

  /** Once a path is visited, any later navigation to it proceeds. */
  lemma RevisitAllowed(s: GuardState, events: seq<Event>, path: string)
    requires path in s.visited
    ensures BeforeEach(Run(s, events), path) == GuardResult(true, Run(s, events))
  {
    RunMonotone(s, events);
  }

  /**
   * Start empty; `/a` is allowed and a page is shown; `/b` is cancelled,
   * visited and reported; `/b` again is allowed.
   */
  lemma VisitScenario()
    ensures Navigate(INITIAL, "/a") == GuardResult(true, GuardState(true, {}, []))
    ensures Navigate(Navigate(INITIAL, "/a").state, "/b")
         == GuardResult(false, GuardState(true, {"/b"}, ["/_saber/visit-page?route=/b"]))
    ensures Navigate(Navigate(Navigate(INITIAL, "/a").state, "/b").state, "/b").allowed
  {
    assert VisitRequest("/b") == "/_saber/visit-page?route=/b";
  }

  /**
   * The guard's closure state. `visitedRoutes` is a dictionary that only ever
   * maps a path to `true`, so a set holds the same information.
   */
  class VisitTracker {
    var hasPrevPage: bool
    var visited: set<string>
    var requests: seq<string>

    function State(): GuardState
      reads this
    {
      GuardState(hasPrevPage, visited, requests)
    }

    ghost predicate Valid()
      reads this
    {
      Consistent(State())
    }

    constructor ()
      ensures Valid() && State() == INITIAL
    {
      hasPrevPage := false;
      visited := {};
      requests := [];
    }

    /** The guard registered before each navigation; the request is logged instead of sent. */
    method OnBeforeEach(path: string) returns (allowed: bool)
      requires Valid()
      modifies this
      ensures Valid()
      ensures GuardResult(allowed, State()) == BeforeEach(old(State()), path)
    {
      if !hasPrevPage || path in visited {
        return true;
      }
      allowed := false;
      visited := visited + {path};
      requests := requests + [VisitRequest(path)];
      ApplyConsistent(old(State()), Before(path));
    }

    /** The hook registered after each navigation: from now on a page has been shown. */
    method OnAfterEach()
      requires Valid()
      modifies this
      ensures Valid()
      ensures State() == AfterEach(old(State()))
    {
      hasPrevPage := true;
      ApplyConsistent(old(State()), After);
    }
  }
}
