/**
 * The greedy insertion solver (src/main.py: GreedyInsertion.solve) and the
 * cost evaluator (src/main.py: calculate_total_cost).
 *
 * Each pass of the solver enumerates every unassigned load, then every
 * existing route in creation order, then every position 0..len-1 of that
 * route, followed by a new one-load route for the load, and keeps the first
 * feasible candidate of least increase. It then rechecks an insertion against
 * the freshly recomputed route time and commits one load.
 */
module Greedy {
  import opened Common
  import opened Geometry
  import opened Routes
  import DistanceMatrices

  /** The fixed cost charged per driver (route) by the cost evaluator. */
  const FixedCostPerDriver: real := 500.0

  /** A way to place load `id`: before position `pos` of existing route `route`, or alone in a new route. */
  datatype Candidate = Existing(id: nat, route: nat, pos: nat) | NewRoute(id: nat)

  /** A place in the enumeration: load index, then route index, then position. */
  datatype Cursor = Cursor(id: nat, route: nat, pos: nat)

  /** Where a candidate is met in the enumeration; the new route of a load comes after all `nRoutes` routes. */
  function CursorOf(c: Candidate, nRoutes: nat): Cursor
  {
    match c
    case Existing(id, j, i) => Cursor(id, j, i)
    case NewRoute(id) => Cursor(id, nRoutes, 0)
  }

  /** Strict lexicographic order of the enumeration. */
  predicate Precedes(a: Cursor, b: Cursor)
  {
    a.id < b.id || (a.id == b.id && (a.route < b.route || (a.route == b.route && a.pos < b.pos)))
  }

  /** The loads of every route, in route order. */
  ghost function Schedules(routes: seq<Route>): (s: seq<seq<Load>>)
    reads routes
    ensures |s| == |routes| && forall k :: 0 <= k < |routes| ==> s[k] == routes[k].route
  {
    seq(|routes|, k requires 0 <= k < |routes| reads routes => routes[k].route)
  }

  /** The cached time of every route, in route order. */
  ghost function Times(routes: seq<Route>): (t: seq<real>)
    reads routes
    ensures |t| == |routes| && forall k :: 0 <= k < |routes| ==> t[k] == routes[k].routeTime
  {
    seq(|routes|, k requires 0 <= k < |routes| reads routes => routes[k].routeTime)
  }

  /** The multiset of the loads whose index below n is still unassigned. */
  ghost function Pending(loads: seq<Load>, unassigned: set<nat>, n: nat): multiset<Load>
    requires n <= |loads|
  {
    if n == 0 then multiset{}
    else Pending(loads, unassigned, n - 1) + (if n - 1 in unassigned then multiset{loads[n - 1]} else multiset{})
  }

  lemma {:induction false} PendingAll(loads: seq<Load>, unassigned: set<nat>, n: nat)
    requires n <= |loads|
    requires forall k: nat :: k in unassigned <==> k < |loads|
    ensures Pending(loads, unassigned, n) == multiset(loads[..n])
  {
    if n > 0 {
      PendingAll(loads, unassigned, n - 1);
      assert loads[..n] == loads[..n - 1] + [loads[n - 1]];
    }
  }

  lemma {:induction false} PendingNone(loads: seq<Load>, n: nat)
    requires n <= |loads|
    ensures Pending(loads, {}, n) == multiset{}
  {
    if n > 0 {
      PendingNone(loads, n - 1);
    }
  }

  lemma {:induction false} PendingRemove(loads: seq<Load>, unassigned: set<nat>, n: nat, id: nat)
    requires n <= |loads| && id < n && id in unassigned
    ensures Pending(loads, unassigned, n) == Pending(loads, unassigned - {id}, n) + multiset{loads[id]}
  {
    var rest := unassigned - {id};
    if id < n - 1 {
      PendingRemove(loads, unassigned, n - 1, id);
      var front, one := Pending(loads, rest, n - 1), multiset{loads[id]};
      var last := if n - 1 in unassigned then multiset{loads[n - 1]} else multiset{};
      assert (n - 1 in rest) == (n - 1 in unassigned);
      assert Pending(loads, rest, n) == front + last;
      assert Pending(loads, unassigned, n) == front + one + last;
      MultisetSwap(front, one, last);
    } else {
      PendingRemoveLast(loads, unassigned, n);
    }
  }

  /** PendingRemove for the highest index below n. */
  lemma PendingRemoveLast(loads: seq<Load>, unassigned: set<nat>, n: nat)
    requires 0 < n <= |loads| && n - 1 in unassigned
    ensures Pending(loads, unassigned, n) == Pending(loads, unassigned - {n - 1}, n) + multiset{loads[n - 1]}
  {
    var rest := unassigned - {n - 1};
    PendingUnaffected(loads, unassigned, n - 1, n - 1);
    assert n - 1 !in rest;
    assert Pending(loads, rest, n) == Pending(loads, rest, n - 1) + multiset{};
  }

  /** One element moving from one multiset to another keeps their sum. */
  lemma MultisetMove<T>(a: multiset<T>, a': multiset<T>, p: multiset<T>, p': multiset<T>, x: T)
    requires a' == a + multiset{x} && p == p' + multiset{x}
    ensures a' + p' == a + p
  {
  }

  lemma MultisetSwap<T>(a: multiset<T>, b: multiset<T>, c: multiset<T>)
    ensures a + b + c == a + c + b
  {
  }

  lemma {:induction false} PendingUnaffected(loads: seq<Load>, unassigned: set<nat>, n: nat, id: nat)
    requires n <= |loads| && n <= id
    ensures Pending(loads, unassigned, n) == Pending(loads, unassigned - {id}, n)
  {
    if n > 0 {
      PendingUnaffected(loads, unassigned, n - 1, id);
      assert (n - 1 in unassigned) == (n - 1 in unassigned - {id});
    }
  }

  /**
   * calculate_total_cost: the number of drivers times the fixed cost plus the
   * driven time, where the driven time recomputes every route rather than
   * reading its cached time.
   */
  function CalculateTotalCost(leg: Metric, depot: Point, routes: seq<Route>): (r: (real, real))
    reads routes
    ensures r.0 - r.1 == FixedCostPerDriver * |routes| as real
    ensures NonNegative(leg) ==> r.1 >= 0.0 && r.0 >= FixedCostPerDriver * |routes| as real
    ensures (forall k :: 0 <= k < |routes| ==> routes[k].leg == leg && routes[k].depot == depot && routes[k].IsFresh())
            ==> r.1 == CachedTimes(routes)
  {
    var driven := DrivenTime(leg, depot, routes);
    (FixedCostPerDriver * |routes| as real + driven, driven)
  }

  /** Sum of the recomputed route times. */
  function DrivenTime(leg: Metric, depot: Point, routes: seq<Route>): (d: real)
    reads routes
    ensures NonNegative(leg) ==> d >= 0.0
    ensures (forall k :: 0 <= k < |routes| ==> routes[k].leg == leg && routes[k].depot == depot && routes[k].IsFresh())
            ==> d == CachedTimes(routes)
  {
    if |routes| == 0 then 0.0
    else
      var last := routes[|routes| - 1];
      assert NonNegative(leg) ==> RouteTime(leg, depot, last.route) >= 0.0 by {
        if NonNegative(leg) {
          PathLengthNonNegative(leg, Locations(depot, last.route));
        }
      }
      DrivenTime(leg, depot, routes[..|routes| - 1]) + RouteTime(leg, depot, last.route)
  }

  /** Sum of the cached route times. */
  function CachedTimes(routes: seq<Route>): real
    reads routes
  {
    if |routes| == 0 then 0.0 else CachedTimes(routes[..|routes| - 1]) + routes[|routes| - 1].Time()
  }

  lemma {:induction false} PathLengthNonNegative(leg: Metric, s: seq<Point>)
    requires NonNegative(leg)
    ensures PathLength(leg, s) >= 0.0
    decreases |s|
  {
    if |s| >= 2 {
      PathLengthNonNegative(leg, s[..|s| - 1]);
    }
  }

  /** `set(range(n))` */
  method Indices(n: nat) returns (u: set<nat>)
    ensures forall k: nat :: k in u <==> k < n
  {
    u := {};
    for id := 0 to n
      invariant forall k: nat :: k in u <==> k < id
    {
      u := u + {id};
    }
  }

  class GreedyInsertion {
    const loads: seq<Load>
    const depot: Point
    const maxTravelTime: real
    /** The distance every route uses: euclidean_distance over the given cache. */
    const leg: Metric

    constructor (loads: seq<Load>, depot: Point, maxTravelTime: real,
                 cache: Option<DistanceMatrices.DistanceMatrix>, dist: Metric)
      ensures this.loads == loads && this.depot == depot && this.maxTravelTime == maxTravelTime
      ensures forall p, q :: leg(p, q) == DistanceMatrices.EuclideanDistance(cache, dist, p, q)
    {
      this.loads := loads;
      this.depot := depot;
      this.maxTravelTime := maxTravelTime;
      this.leg := (p, q) => DistanceMatrices.EuclideanDistance(cache, dist, p, q);
    }

    /** The candidate names a load and, for an insertion, a route and a position that exist. */
    ghost predicate InRange(routes: seq<Route>, c: Candidate)
      reads routes
    {
      c.id < |loads| &&
      match c
      case Existing(_, j, i) => j < |routes| && i < |routes[j].route|
      case NewRoute(_) => true
    }

    ghost predicate IsCandidate(routes: seq<Route>, unassigned: set<nat>, c: Candidate)
      reads routes
    {
      c.id in unassigned && InRange(routes, c)
    }

    /** The route time the candidate would give, as the scan computes it. */
    ghost function CandidateTime(routes: seq<Route>, c: Candidate): real
      reads routes
      requires InRange(routes, c)
    {
      match c
      case Existing(id, j, i) => routes[j].GetTimeWithNewLoad(i, loads[id])
      case NewRoute(id) => RouteTime(leg, depot, [loads[id]])
    }

    /** The increase the scan compares: new time minus cached time, or the new route's whole time. */
    ghost function Increase(routes: seq<Route>, c: Candidate): real
      reads routes
      requires InRange(routes, c)
    {
      match c
      case Existing(_, j, _) => CandidateTime(routes, c) - routes[j].Time()
      case NewRoute(_) => CandidateTime(routes, c)
    }

    ghost predicate Feasible(routes: seq<Route>, c: Candidate)
      reads routes
      requires InRange(routes, c)
    {
      CandidateTime(routes, c) <= maxTravelTime
    }

    /** Candidate c, met earlier in the scan, does not beat `best`: ties go to the earlier one. */
    ghost predicate Beaten(routes: seq<Route>, best: Option<Candidate>, bestIncrease: real, c: Candidate)
      reads routes
      requires InRange(routes, c)
    {
      best.Some? && bestIncrease <= Increase(routes, c) &&
      (Precedes(CursorOf(c, |routes|), CursorOf(best.value, |routes|)) ==> bestIncrease < Increase(routes, c))
    }

    /**
     * What the scan knows once every candidate before `cursor` has been met:
     * `best` is the first feasible candidate of least increase among them, and
     * `bestIncrease` its increase.
     */
    ghost predicate ScanInvariant(routes: seq<Route>, unassigned: set<nat>,
                                  best: Option<Candidate>, bestIncrease: real, cursor: Cursor)
      reads routes
    {
      (best.Some? ==>
        IsCandidate(routes, unassigned, best.value) && Feasible(routes, best.value) &&
        bestIncrease == Increase(routes, best.value) && Precedes(CursorOf(best.value, |routes|), cursor)) &&
      (forall c :: IsCandidate(routes, unassigned, c) && Feasible(routes, c) && Precedes(CursorOf(c, |routes|), cursor) ==>
         Beaten(routes, best, bestIncrease, c))
    }

    /**
     * One scan of a pass: the first (in enumeration order) feasible candidate
     * whose increase is least, or None when no candidate is feasible.
     * Replacement needs a strictly smaller increase, so ties keep the
     * earlier candidate.
     */
    method FindBest(routes: seq<Route>, unassigned: set<nat>) returns (best: Option<Candidate>)
      ensures best.Some? ==> FirstMin(routes, unassigned, best.value)
      ensures best.None? <==> forall c :: IsCandidate(routes, unassigned, c) ==> !Feasible(routes, c)
    {
      best := None;
      var bestIncrease: real := 0.0;  // stands for float('inf') while best is None
      for id := 0 to |loads|
        invariant ScanInvariant(routes, unassigned, best, bestIncrease, Cursor(id, 0, 0))
      {
        if id in unassigned {
          best, bestIncrease := ScanLoad(routes, unassigned, id, best, bestIncrease);
        } else {
          SkipLoad(routes, unassigned, best, bestIncrease, id);
        }
      }
      forall c | IsCandidate(routes, unassigned, c)
        ensures Precedes(CursorOf(c, |routes|), Cursor(|loads|, 0, 0))
      {
      }
    }

    /** The candidates of one unassigned load: every route in creation order, then a new route. */
    method ScanLoad(routes: seq<Route>, unassigned: set<nat>, id: nat, best0: Option<Candidate>, bestIncrease0: real)
      returns (best: Option<Candidate>, bestIncrease: real)
      requires id < |loads| && id in unassigned
      requires ScanInvariant(routes, unassigned, best0, bestIncrease0, Cursor(id, 0, 0))
      ensures ScanInvariant(routes, unassigned, best, bestIncrease, Cursor(id + 1, 0, 0))
    {
      best, bestIncrease := best0, bestIncrease0;
      var load := loads[id];
      for j := 0 to |routes|
        invariant ScanInvariant(routes, unassigned, best, bestIncrease, Cursor(id, j, 0))
      {
        best, bestIncrease := ScanRoute(routes, unassigned, id, j, best, bestIncrease);
      }
      var c := NewRoute(id);
      ghost var best1, bestIncrease1 := best, bestIncrease;
      var newRoute := new Route([load], depot, leg);
      newRoute.UpdateTime();
      var newRouteTime := newRoute.Time();
      if newRouteTime <= maxTravelTime && (best.None? || newRouteTime < bestIncrease) {
        best := Some(c);
        bestIncrease := newRouteTime;
      }
      StepNew(routes, unassigned, best1, bestIncrease1, best, bestIncrease, id, newRouteTime);
      EndOfLoad(routes, unassigned, best, bestIncrease, id);
    }

    /** The candidates of one load in one existing route: positions 0..len-1. */
    method ScanRoute(routes: seq<Route>, unassigned: set<nat>, id: nat, j: nat,
                     best0: Option<Candidate>, bestIncrease0: real)
      returns (best: Option<Candidate>, bestIncrease: real)
      requires id < |loads| && id in unassigned && j < |routes|
      requires ScanInvariant(routes, unassigned, best0, bestIncrease0, Cursor(id, j, 0))
      ensures ScanInvariant(routes, unassigned, best, bestIncrease, Cursor(id, j + 1, 0))
    {
      best, bestIncrease := best0, bestIncrease0;
      var load := loads[id];
      var route := routes[j];
      for i := 0 to route.Len()
        invariant ScanInvariant(routes, unassigned, best, bestIncrease, Cursor(id, j, i))
      {
        var c := Existing(id, j, i);
        ghost var best1, bestIncrease1 := best, bestIncrease;
        var newRouteTime := route.GetTimeWithNewLoad(i, load);
        if newRouteTime <= maxTravelTime {
          var increase := newRouteTime - route.Time();
          if best.None? || increase < bestIncrease {
            best := Some(c);
            bestIncrease := increase;
          }
        }
        StepExisting(routes, unassigned, best1, bestIncrease1, best, bestIncrease, id, j, i, newRouteTime);
      }
      EndOfRoute(routes, unassigned, best, bestIncrease, id, j);
    }

    /**
     * Meeting candidate c at the cursor advances the scan by one position,
     * whether or not c replaced the best so far.
     */
    lemma StepInvariant(routes: seq<Route>, unassigned: set<nat>,
                        best0: Option<Candidate>, bestIncrease0: real,
                        best: Option<Candidate>, bestIncrease: real, c: Candidate)
      requires IsCandidate(routes, unassigned, c)
      requires var at := CursorOf(c, |routes|); ScanInvariant(routes, unassigned, best0, bestIncrease0, at)
      requires if Feasible(routes, c) && (best0.None? || Increase(routes, c) < bestIncrease0)
               then best == Some(c) && bestIncrease == Increase(routes, c)
               else best == best0 && bestIncrease == bestIncrease0
      ensures var at := CursorOf(c, |routes|);
        ScanInvariant(routes, unassigned, best, bestIncrease, Cursor(at.id, at.route, at.pos + 1))
    {
      var n := |routes|;
      var at := CursorOf(c, n);
      var next := Cursor(at.id, at.route, at.pos + 1);
      forall d | IsCandidate(routes, unassigned, d) && Feasible(routes, d) && Precedes(CursorOf(d, n), next)
        ensures Beaten(routes, best, bestIncrease, d)
      {
        if d != c {
          assert Precedes(CursorOf(d, n), at);
          assert Beaten(routes, best0, bestIncrease0, d);
          if best != best0 {
            assert Precedes(CursorOf(d, n), CursorOf(c, n));
          }
        }
      }
    }

    /** StepInvariant for the insertion before position i of route j, in the terms the scan computes. */
    lemma StepExisting(routes: seq<Route>, unassigned: set<nat>,
                       best0: Option<Candidate>, bestIncrease0: real,
                       best: Option<Candidate>, bestIncrease: real, id: nat, j: nat, i: nat, t: real)
      requires id in unassigned && id < |loads| && j < |routes| && i < |routes[j].route|
      requires t == routes[j].GetTimeWithNewLoad(i, loads[id])
      requires ScanInvariant(routes, unassigned, best0, bestIncrease0, Cursor(id, j, i))
      requires if t <= maxTravelTime && (best0.None? || t - routes[j].Time() < bestIncrease0)
               then best == Some(Existing(id, j, i)) && bestIncrease == t - routes[j].Time()
               else best == best0 && bestIncrease == bestIncrease0
      ensures ScanInvariant(routes, unassigned, best, bestIncrease, Cursor(id, j, i + 1))
    {
      StepInvariant(routes, unassigned, best0, bestIncrease0, best, bestIncrease, Existing(id, j, i));
    }

    /** StepInvariant for the new-route candidate of load id, whose time is t. */
    lemma StepNew(routes: seq<Route>, unassigned: set<nat>,
                  best0: Option<Candidate>, bestIncrease0: real,
                  best: Option<Candidate>, bestIncrease: real, id: nat, t: real)
      requires id in unassigned && id < |loads|
      requires t == RouteTime(leg, depot, [loads[id]])
      requires ScanInvariant(routes, unassigned, best0, bestIncrease0, Cursor(id, |routes|, 0))
      requires if t <= maxTravelTime && (best0.None? || t < bestIncrease0)
               then best == Some(NewRoute(id)) && bestIncrease == t
               else best == best0 && bestIncrease == bestIncrease0
      ensures ScanInvariant(routes, unassigned, best, bestIncrease, Cursor(id, |routes|, 1))
    {
      StepInvariant(routes, unassigned, best0, bestIncrease0, best, bestIncrease, NewRoute(id));
    }

    /** Moving the cursor forward past positions where no candidate sits keeps the invariant. */
    lemma Widen(routes: seq<Route>, unassigned: set<nat>, best: Option<Candidate>, bestIncrease: real,
                from: Cursor, to: Cursor)
      requires ScanInvariant(routes, unassigned, best, bestIncrease, from)
      requires from == to || Precedes(from, to)
      requires forall c :: IsCandidate(routes, unassigned, c) && Precedes(CursorOf(c, |routes|), to) ==>
                 Precedes(CursorOf(c, |routes|), from)
      ensures ScanInvariant(routes, unassigned, best, bestIncrease, to)
    {
    }

    /** After the last position of route j comes the first position of route j + 1. */
    lemma EndOfRoute(routes: seq<Route>, unassigned: set<nat>, best: Option<Candidate>, bestIncrease: real,
                     id: nat, j: nat)
      requires j < |routes|
      requires ScanInvariant(routes, unassigned, best, bestIncrease, Cursor(id, j, |routes[j].route|))
      ensures ScanInvariant(routes, unassigned, best, bestIncrease, Cursor(id, j + 1, 0))
    {
      Widen(routes, unassigned, best, bestIncrease, Cursor(id, j, |routes[j].route|), Cursor(id, j + 1, 0));
    }

    /** After the new-route candidate of a load comes the next load. */
    lemma EndOfLoad(routes: seq<Route>, unassigned: set<nat>, best: Option<Candidate>, bestIncrease: real, id: nat)
      requires ScanInvariant(routes, unassigned, best, bestIncrease, Cursor(id, |routes|, 1))
      ensures ScanInvariant(routes, unassigned, best, bestIncrease, Cursor(id + 1, 0, 0))
    {
      Widen(routes, unassigned, best, bestIncrease, Cursor(id, |routes|, 1), Cursor(id + 1, 0, 0));
    }

    /** An assigned load offers no candidate. */
    lemma SkipLoad(routes: seq<Route>, unassigned: set<nat>, best: Option<Candidate>, bestIncrease: real, id: nat)
      requires id !in unassigned
      requires ScanInvariant(routes, unassigned, best, bestIncrease, Cursor(id, 0, 0))
      ensures ScanInvariant(routes, unassigned, best, bestIncrease, Cursor(id + 1, 0, 0))
    {
      Widen(routes, unassigned, best, bestIncrease, Cursor(id, 0, 0), Cursor(id + 1, 0, 0));
    }

    /** A route the solver keeps: of this problem, not empty, and within the cap unless its time is fresh. */
    ghost predicate RouteOk(r: Route)
      reads r
    {
      r.depot == depot && r.leg == leg && |r.route| >= 1 && (r.routeTime <= maxTravelTime || r.IsFresh())
    }

    ghost predicate Distinct(routes: seq<Route>)
    {
      forall a, b :: 0 <= a < b < |routes| ==> routes[a] != routes[b]
    }

    /**
     * solve: one pass per load. A pass finds the best candidate, rechecks an
     * insertion against the recomputed time of its route, and either inserts
     * the load there or opens a new route for it. None stands for the failure
     * of the source when a pass finds no feasible candidate (it then builds a
     * route from `None`).
     */
    method Solve() returns (result: Option<seq<Route>>)
      ensures result.Some? ==> multiset(Flatten(Schedules(result.value))) == multiset(loads)
      ensures result.Some? ==> forall r :: r in result.value ==>
                r.depot == depot && r.leg == leg && |r.route| >= 1 &&
                (r.routeTime <= maxTravelTime || r.IsFresh())
      ensures (forall k :: 0 <= k < |loads| ==> RouteTime(leg, depot, [loads[k]]) <= maxTravelTime) ==> result.Some?
    {
      var routes: seq<Route> := [];
      var unassigned: set<nat> := Indices(|loads|);
      PendingAll(loads, unassigned, |loads|);
      assert loads[..|loads|] == loads;
      while unassigned != {}
        invariant forall id :: id in unassigned ==> id < |loads|
        invariant forall r :: r in routes ==> fresh(r)
        invariant Distinct(routes)
        invariant forall r :: r in routes ==> RouteOk(r)
        invariant multiset(Flatten(Schedules(routes))) + Pending(loads, unassigned, |loads|) == multiset(loads)
        decreases |unassigned|
      {
        var ok;
        ghost var best;
        routes, unassigned, ok, best := Step(routes, unassigned);
        if !ok {
          return None;
        }
      }
      PendingNone(loads, |loads|);
      return Some(routes);
    }

    /**
     * The body of the solver's loop: one pass, then the committed load's
     * index, and only it, leaves the unassigned set. The committed candidate
     * is the first feasible minimum of the scan, with the commit effect.
     */
    method Step(routes: seq<Route>, unassigned: set<nat>)
      returns (routes': seq<Route>, unassigned': set<nat>, ok: bool, ghost best: Option<Candidate>)
      requires unassigned != {} && forall id :: id in unassigned ==> id < |loads|
      requires Distinct(routes)
      requires forall r :: r in routes ==> RouteOk(r)
      modifies set r | r in routes
      ensures ok <==> best.Some?
      ensures !ok ==> routes' == routes && forall k :: 0 <= k < |routes| ==> unchanged(routes[k])
      ensures !ok ==> exists id :: id in unassigned && RouteTime(leg, depot, [loads[id]]) > maxTravelTime
      ensures ok ==> best.value.id in unassigned && old(FirstMin(routes, unassigned, best.value))
      ensures ok ==> unassigned' == unassigned - {best.value.id}
      ensures ok ==>
                CommitEffect(old(Schedules(routes)), old(Times(routes)), old(RecheckTime(routes, best.value)),
                             routes, routes', best.value)
      ensures ok ==> |unassigned'| < |unassigned| && unassigned' <= unassigned
      ensures ok ==> Distinct(routes') && (forall r :: r in routes' ==> RouteOk(r))
      ensures ok ==> forall r :: r in routes' ==> r in routes || fresh(r)
      ensures ok ==> multiset(Flatten(Schedules(routes'))) + Pending(loads, unassigned', |loads|) ==
                     multiset(Flatten(old(Schedules(routes)))) + Pending(loads, unassigned, |loads|)
    {
      var committed;
      routes', committed := Pass(routes, unassigned);
      best := committed;
      unassigned' := unassigned;
      ok := committed.Some?;
      if ok {
        var picked := committed.value.id;
        PendingRemove(loads, unassigned, |loads|, picked);
        unassigned' := unassigned - {picked};
        MultisetMove(multiset(Flatten(old(Schedules(routes)))), multiset(Flatten(Schedules(routes'))),
                     Pending(loads, unassigned, |loads|), Pending(loads, unassigned', |loads|), loads[picked]);
      }
    }

    /**
     * The candidate FindBest returns: feasible, of least increase, and strictly
     * cheaper than every feasible candidate met before it in the enumeration.
     */
    ghost predicate FirstMin(routes: seq<Route>, unassigned: set<nat>, best: Candidate)
      reads routes
    {
      IsCandidate(routes, unassigned, best) && Feasible(routes, best) &&
      (forall c :: IsCandidate(routes, unassigned, c) && Feasible(routes, c) ==>
         Increase(routes, best) <= Increase(routes, c)) &&
      (forall c :: IsCandidate(routes, unassigned, c) && Feasible(routes, c) &&
                   Precedes(CursorOf(c, |routes|), CursorOf(best, |routes|))
                   ==> Increase(routes, best) < Increase(routes, c))
    }

    /**
     * The time the commit step rechecks for an insertion: the recomputed time
     * of its route plus the insertion delta. A new-route candidate has no
     * recheck.
     */
    ghost function RecheckTime(routes: seq<Route>, c: Candidate): Option<real>
      reads routes
      requires InRange(routes, c)
    {
      match c
      case NewRoute(_) => None
      case Existing(id, j, i) =>
        var r := routes[j];
        Some(RouteTime(r.leg, r.depot, r.route) + r.CalculateNewLoadDelta(i, loads[id]))
    }

    /** The recheck of the commit step: c is an insertion whose rechecked time fits the cap. */
    ghost predicate Passes(routes: seq<Route>, c: Candidate)
      reads routes
      requires InRange(routes, c)
    {
      var t := RecheckTime(routes, c);
      t.Some? && t.value <= maxTravelTime
    }

    /**
     * What committing c does to the routes, given their loads and cached
     * times before and the rechecked time. On a pass the load is spliced into
     * route c.route before position c.pos, whose cached time becomes the
     * rechecked time, and the list of routes stays the same. Otherwise the
     * loads of every route stay the same, the route of a failed recheck has
     * a fresh cached time, and one fresh route with only the load is
     * appended. Every other route keeps its cached time.
     */
    ghost predicate CommitEffect(before: seq<seq<Load>>, times: seq<real>, recheck: Option<real>,
                                 routes: seq<Route>, routes': seq<Route>, c: Candidate)
      reads routes, routes'
      requires c.id < |loads|
    {
      |before| == |routes| && |times| == |routes| &&
      (forall k :: 0 <= k < |routes| && !(c.Existing? && k == c.route) ==>
         routes[k].route == before[k] && routes[k].routeTime == times[k]) &&
      if recheck.Some? && recheck.value <= maxTravelTime then
        c.Existing? && c.route < |routes| && c.pos <= |before[c.route]| && routes' == routes &&
        routes[c.route].route == Spliced(before[c.route], c.pos, loads[c.id]) &&
        routes[c.route].routeTime == recheck.value
      else
        |routes'| == |routes| + 1 && routes'[..|routes|] == routes &&
        (c.Existing? && c.route < |routes| ==> routes[c.route].route == before[c.route] && routes[c.route].IsFresh()) &&
        routes'[|routes|].route == [loads[c.id]] && routes'[|routes|].IsFresh()
    }

    /**
     * One pass of the solver's loop: the first feasible minimum is committed,
     * or, when no candidate is feasible, the pass fails (None) and nothing
     * changes.
     */
    method Pass(routes: seq<Route>, unassigned: set<nat>) returns (routes': seq<Route>, best: Option<Candidate>)
      requires unassigned != {} && forall id :: id in unassigned ==> id < |loads|
      requires Distinct(routes)
      requires forall r :: r in routes ==> RouteOk(r)
      modifies set r | r in routes
      ensures best.None? <==> old(forall c :: IsCandidate(routes, unassigned, c) ==> !Feasible(routes, c))
      ensures best.None? ==> routes' == routes && forall k :: 0 <= k < |routes| ==> unchanged(routes[k])
      ensures best.None? ==> exists id :: id in unassigned && RouteTime(leg, depot, [loads[id]]) > maxTravelTime
      ensures best.Some? ==> best.value.id in unassigned && old(FirstMin(routes, unassigned, best.value))
      ensures best.Some? ==>
                CommitEffect(old(Schedules(routes)), old(Times(routes)), old(RecheckTime(routes, best.value)),
                             routes, routes', best.value)
      ensures best.Some? ==> Distinct(routes') && (forall r :: r in routes' ==> RouteOk(r))
      ensures best.Some? ==> forall r :: r in routes' ==> r in routes || fresh(r)
      ensures best.Some? ==>
                multiset(Flatten(Schedules(routes'))) == multiset(Flatten(old(Schedules(routes)))) + multiset{loads[best.value.id]}
    {
      best := FindBest(routes, unassigned);
      if best.None? {
        forall c | old(IsCandidate(routes, unassigned, c)) ensures old(!Feasible(routes, c)) {
          assert IsCandidate(routes, unassigned, c);
        }
        ghost var id :| id in unassigned;
        assert IsCandidate(routes, unassigned, NewRoute(id));
        routes' := routes;
        return;
      }
      routes' := Commit(routes, best.value);
    }

    /**
     * The commit step of a pass: an insertion is rechecked against the
     * recomputed time of its route and done when it still fits; otherwise, and
     * for a new-route candidate, the load gets a route of its own.
     */
    method Commit(routes: seq<Route>, c: Candidate) returns (routes': seq<Route>)
      requires InRange(routes, c)
      requires Distinct(routes)
      requires forall r :: r in routes ==> RouteOk(r)
      modifies set r | r in routes
      ensures CommitEffect(old(Schedules(routes)), old(Times(routes)), old(RecheckTime(routes, c)), routes, routes', c)
      ensures !old(Passes(routes, c)) ==> fresh(routes'[|routes|])
      ensures Distinct(routes')
      ensures forall r :: r in routes' ==> RouteOk(r)
      ensures forall r :: r in routes' ==> r in routes || fresh(r)
      ensures multiset(Flatten(Schedules(routes'))) == multiset(Flatten(old(Schedules(routes)))) + multiset{loads[c.id]}
    {
      if c.Existing? {
        routes' := CommitInsertion(routes, c);
      } else {
        ghost var before, times := Schedules(routes), Times(routes);
        routes' := AppendRoute(routes, loads[c.id]);
        assert CommitEffect(before, times, None, routes, routes', c);
      }
    }

    /** Commit for an insertion candidate: the recheck, then the insertion or a new route. */
    method CommitInsertion(routes: seq<Route>, c: Candidate) returns (routes': seq<Route>)
      requires c.Existing? && InRange(routes, c)
      requires Distinct(routes)
      requires forall r :: r in routes ==> RouteOk(r)
      modifies set r | r in routes
      ensures CommitEffect(old(Schedules(routes)), old(Times(routes)), old(RecheckTime(routes, c)), routes, routes', c)
      ensures !old(Passes(routes, c)) ==> fresh(routes'[|routes|])
      ensures Distinct(routes')
      ensures forall r :: r in routes' ==> RouteOk(r)
      ensures forall r :: r in routes' ==> r in routes || fresh(r)
      ensures multiset(Flatten(Schedules(routes'))) == multiset(Flatten(old(Schedules(routes)))) + multiset{loads[c.id]}
    {
      ghost var before, times, recheck := Schedules(routes), Times(routes), RecheckTime(routes, c);
      var load := loads[c.id];
      var inserted := InsertInto(routes, c.route, c.pos, load);
      if inserted {
        routes' := routes;
        assert CommitEffect(before, times, recheck, routes, routes', c);
      } else {
        assert Schedules(routes) == before;
        routes' := AppendRoute(routes, load);
        assert CommitEffect(before, times, recheck, routes, routes', c);
      }
    }

    /**
     * The recheck and insertion into route j: the load goes in before
     * position i exactly when the recomputed time plus the delta fits the
     * cap, and no other route's loads change.
     */
    method InsertInto(routes: seq<Route>, j: nat, i: nat, load: Load) returns (inserted: bool)
      requires j < |routes| && i < |routes[j].route|
      requires Distinct(routes)
      requires forall r :: r in routes ==> RouteOk(r)
      modifies routes[j]
      ensures forall r :: r in routes ==> RouteOk(r)
      ensures inserted <==> old(RouteTime(routes[j].leg, routes[j].depot, routes[j].route) +
                                routes[j].CalculateNewLoadDelta(i, load)) <= maxTravelTime
      ensures inserted ==> routes[j].route == Spliced(old(routes[j].route), i, load) &&
                           routes[j].routeTime == old(RouteTime(routes[j].leg, routes[j].depot, routes[j].route) +
                                                      routes[j].CalculateNewLoadDelta(i, load))
      ensures !inserted ==> routes[j].route == old(routes[j].route) && routes[j].IsFresh()
      ensures forall k :: 0 <= k < |routes| && k != j ==>
                routes[k].route == old(routes[k].route) && routes[k].routeTime == old(routes[k].routeTime)
      ensures inserted ==> multiset(Flatten(Schedules(routes))) == multiset(Flatten(old(Schedules(routes)))) + multiset{load}
    {
      ghost var before := Schedules(routes);
      var route := routes[j];
      inserted := TryInsert(route, i, load);
      if inserted {
        assert Schedules(routes) == before[j := Spliced(before[j], i, load)];
        FlattenInsert(before, j, i, load);
      }
    }

    /** A new fresh one-load route after the existing ones, which are left as they are. */
    method AppendRoute(routes: seq<Route>, load: Load) returns (routes': seq<Route>)
      requires Distinct(routes)
      requires forall r :: r in routes ==> RouteOk(r)
      ensures |routes'| == |routes| + 1 && routes'[..|routes|] == routes
      ensures fresh(routes'[|routes|]) && routes'[|routes|].route == [load] && routes'[|routes|].IsFresh()
      ensures Distinct(routes')
      ensures forall r :: r in routes' ==> RouteOk(r)
      ensures forall r :: r in routes' ==> r in routes || fresh(r)
      ensures multiset(Flatten(Schedules(routes'))) == multiset(Flatten(Schedules(routes))) + multiset{load}
    {
      ghost var before := Schedules(routes);
      var r := new Route([load], depot, leg);
      routes' := routes + [r];
      assert routes'[..|routes|] == routes;
      assert Schedules(routes') == before + [[load]];
      FlattenAppend(before, [load]);
      assert multiset(Flatten(before) + [load]) == multiset(Flatten(before)) + multiset{load};
    }

    /**
     * Recompute the route's time, then insert the load before position i
     * exactly when the recomputed time plus the delta fits the cap; the
     * cached time then becomes that sum.
     */
    method TryInsert(route: Route, i: nat, load: Load) returns (inserted: bool)
      requires RouteOk(route) && i < |route.route|
      modifies route
      ensures RouteOk(route)
      ensures inserted <==> RouteTime(route.leg, route.depot, old(route.route)) +
                            old(route.CalculateNewLoadDelta(i, load)) <= maxTravelTime
      ensures inserted ==> route.route == Spliced(old(route.route), i, load)
      ensures inserted ==>
                route.routeTime == RouteTime(route.leg, route.depot, old(route.route)) + old(route.CalculateNewLoadDelta(i, load))
      ensures !inserted ==> route.route == old(route.route) && route.IsFresh()
    {
      route.UpdateTime();
      var newRouteTime := route.GetTimeWithNewLoad(i, load);
      inserted := newRouteTime <= maxTravelTime;
      if inserted {
        route.InsertLoad(i, load);
      }
    }
  }
}
