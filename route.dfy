/**
 * Route cost and incremental insertion (src/main.py: calculate_route_time, Route).
 *
 * A route visits depot, pickup and dropoff of each of its loads in order, and
 * returns to the depot. Its time is the sum of the legs between consecutive
 * stops. The distance used for a leg is a parameter (`leg`), so every fact here
 * holds for any distance function.
 */
module Routes {
  import opened Geometry

  /** Pickup and dropoff of every load, in route order. */
  function Stops(loads: seq<Load>): (s: seq<Point>)
    ensures |s| == 2 * |loads|
    ensures |loads| > 0 ==> s[0] == loads[0].pickup && s[|s| - 1] == loads[|loads| - 1].dropoff
  {
    if |loads| == 0 then []
    else Stops(loads[..|loads| - 1]) + [loads[|loads| - 1].pickup, loads[|loads| - 1].dropoff]
  }

  /** The full visiting sequence: depot, the stops of every load, depot. */
  function Locations(depot: Point, loads: seq<Load>): seq<Point>
  {
    [depot] + Stops(loads) + [depot]
  }

  /** Sum of `leg` over every pair of consecutive points of `s`. */
  function PathLength(leg: Metric, s: seq<Point>): real
  {
    if |s| < 2 then 0.0 else PathLength(leg, s[..|s| - 1]) + leg(s[|s| - 2], s[|s| - 1])
  }

  /** The time of a route recomputed from scratch. */
  function RouteTime(leg: Metric, depot: Point, loads: seq<Load>): real
  {
    PathLength(leg, Locations(depot, loads))
  }

  /** An empty route costs the depot -> depot leg only. */
  lemma EmptyRouteTime(leg: Metric, depot: Point)
    ensures RouteTime(leg, depot, []) == leg(depot, depot)
  {
    var s := Locations(depot, []);
    assert s == [depot, depot];
    assert s[..1] == [depot];
    assert PathLength(leg, s) == PathLength(leg, s[..1]) + leg(s[0], s[1]);
  }

  /** A one-load route costs the round trip depot -> pickup -> dropoff -> depot. */
  lemma RoundTripTime(leg: Metric, depot: Point, load: Load)
    ensures RouteTime(leg, depot, [load])
         == leg(depot, load.pickup) + leg(load.pickup, load.dropoff) + leg(load.dropoff, depot)
  {
    var s := Locations(depot, [load]);
    assert [load][..0] == [];
    assert s == [depot, load.pickup, load.dropoff, depot];
    assert s[..3] == [depot, load.pickup, load.dropoff];
    assert s[..3][..2] == [depot, load.pickup];
    assert s[..3][..2][..1] == [depot];
    assert PathLength(leg, s[..3][..2]) == leg(depot, load.pickup);
    assert PathLength(leg, s[..3]) == leg(depot, load.pickup) + leg(load.pickup, load.dropoff);
  }

  /** Python's `loads.insert(i, load)` for `0 <= i <= len(loads)`. */
  function Spliced(loads: seq<Load>, i: nat, load: Load): (r: seq<Load>)
    requires i <= |loads|
  {
    loads[..i] + [load] + loads[i..]
  }

  /** Change in path length when `load` is visited between the points `left` and `right`. */
  function SpliceDelta(leg: Metric, left: Point, right: Point, load: Load): real
  {
    leg(left, load.pickup) + leg(load.pickup, load.dropoff) + leg(load.dropoff, right) - leg(left, right)
  }

  lemma {:induction false} PathLengthConcat(leg: Metric, a: seq<Point>, b: seq<Point>)
    requires |a| >= 1 && |b| >= 1
    ensures PathLength(leg, a + b) == PathLength(leg, a) + leg(a[|a| - 1], b[0]) + PathLength(leg, b)
    decreases |b|
  {
    if |b| == 1 {
      assert (a + b)[..|a + b| - 1] == a;
    } else {
      var b' := b[..|b| - 1];
      assert (a + b)[..|a + b| - 1] == a + b';
      PathLengthConcat(leg, a, b');
    }
  }

  lemma {:induction false} StopsConcat(a: seq<Load>, b: seq<Load>)
    ensures Stops(a + b) == Stops(a) + Stops(b)
    decreases |b|
  {
    if |b| == 0 {
      assert a + b == a;
    } else {
      var b' := b[..|b| - 1];
      assert (a + b)[..|a + b| - 1] == a + b';
      StopsConcat(a, b');
    }
  }

  /** The visiting sequence split at position i: everything up to the left neighbour, the rest. */
  lemma LocationsSplit(depot: Point, loads: seq<Load>, i: nat)
    requires i <= |loads|
    ensures Locations(depot, loads) == ([depot] + Stops(loads[..i])) + (Stops(loads[i..]) + [depot])
  {
    StopsConcat(loads[..i], loads[i..]);
    assert loads[..i] + loads[i..] == loads;
  }

  /** The visiting sequence after splicing `load` in at position i. */
  lemma SplicedLocations(depot: Point, loads: seq<Load>, i: nat, load: Load)
    requires i <= |loads|
    ensures Locations(depot, Spliced(loads, i, load))
         == ([depot] + Stops(loads[..i])) + ([load.pickup, load.dropoff] + (Stops(loads[i..]) + [depot]))
  {
    StopsConcat(loads[..i], [load] + loads[i..]);
    StopsConcat([load], loads[i..]);
    assert Stops([load]) == [load.pickup, load.dropoff] by { assert [load][..0] == []; }
    assert Spliced(loads, i, load) == loads[..i] + ([load] + loads[i..]);
  }

  /** Visiting p then d between the end of a and the start of b changes the path length by the detour. */
  lemma PathSplice(leg: Metric, a: seq<Point>, b: seq<Point>, p: Point, d: Point)
    requires |a| >= 1 && |b| >= 1
    ensures PathLength(leg, a + ([p, d] + b)) - PathLength(leg, a + b)
         == leg(a[|a| - 1], p) + leg(p, d) + leg(d, b[0]) - leg(a[|a| - 1], b[0])
  {
    var mid := [p, d];
    var tail := mid + b;
    assert tail[0] == p;
    assert PathLength(leg, mid) == leg(p, d) by { assert mid[..1] == [p]; }
    PathLengthConcat(leg, mid, b);
    assert PathLength(leg, tail) == leg(p, d) + leg(d, b[0]) + PathLength(leg, b);
    PathLengthConcat(leg, a, tail);
    PathLengthConcat(leg, a, b);
  }

  /**
   * The change of the recomputed route time when `load` is spliced in before
   * position i: the legs left -> pickup -> dropoff -> right replace the leg
   * left -> right, where left is the depot at the front and right is the
   * depot at the end. This holds for every position 0..len, of every route,
   * the empty route included.
   */
  lemma SpliceChange(leg: Metric, depot: Point, loads: seq<Load>, i: nat, load: Load)
    requires i <= |loads|
    ensures RouteTime(leg, depot, Spliced(loads, i, load)) - RouteTime(leg, depot, loads)
         == SpliceDelta(leg, if i == 0 then depot else loads[i - 1].dropoff,
                             if i == |loads| then depot else loads[i].pickup, load)
  {
    var a := [depot] + Stops(loads[..i]);
    var b := Stops(loads[i..]) + [depot];
    assert a[|a| - 1] == if i == 0 then depot else loads[i - 1].dropoff;
    assert b[0] == if i == |loads| then depot else loads[i].pickup;
    LocationsSplit(depot, loads, i);
    SplicedLocations(depot, loads, i, load);
    PathSplice(leg, a, b, load.pickup, load.dropoff);
  }

  /**
   * calculate_route_time: collects the visiting sequence in a list, then
   * accumulates the leg between each pair of consecutive locations.
   */
  method CalculateRouteTime(leg: Metric, depot: Point, route: seq<Load>) returns (total: real)
    ensures total == RouteTime(leg, depot, route)
  {
    total := 0.0;
    var locations := [depot];
    for k := 0 to |route|
      invariant locations == [depot] + Stops(route[..k])
    {
      assert route[..k + 1][..k] == route[..k];
      locations := locations + [route[k].pickup, route[k].dropoff];
    }
    assert route[..|route|] == route;
    locations := locations + [depot];
    for i := 0 to |locations| - 1
      invariant total == PathLength(leg, locations[..i + 1])
    {
      assert locations[..i + 2][..i + 1] == locations[..i + 1];
      total := total + leg(locations[i], locations[i + 1]);
    }
    assert locations[..|locations|] == locations;
  }

  /**
   * A driver's route: its loads in visiting order and a cached route time that
   * insertions adjust by a delta instead of recomputing. The depot and the
   * distance, module-level globals in the source, are fixed per route.
   */
  class Route {
    var route: seq<Load>
    var routeTime: real
    const depot: Point
    const leg: Metric

    /** The cached time equals the time recomputed from the loads. */
    ghost predicate IsFresh()
      reads this
    {
      routeTime == RouteTime(leg, depot, route)
    }

    constructor (route: seq<Load>, depot: Point, leg: Metric)
      ensures this.route == route && this.depot == depot && this.leg == leg
      ensures IsFresh()
    {
      var t := CalculateRouteTime(leg, depot, route);
      this.route := route;
      this.depot := depot;
      this.leg := leg;
      this.routeTime := t;
    }

    function Time(): real
      reads this
    {
      routeTime
    }

    function Len(): nat
      reads this
    {
      |route|
    }

    /**
     * Marginal time of inserting `load` before position i, as the source
     * computes it. Compared with the true change of the recomputed time:
     * exact for routes of two or more loads at positions 1..len-1; at
     * position 0 the left neighbour is Python's route[-1], the LAST load,
     * instead of the depot; and for a one-load route the depot -> pickup leg
     * of the new load is never added.
     */
    function CalculateNewLoadDelta(i: nat, load: Load): (delta: real)
      reads this
      requires i < |route|
      ensures |route| >= 2 && i >= 1 ==>
        delta == RouteTime(leg, depot, Spliced(route, i, load)) - RouteTime(leg, depot, route)
      ensures |route| >= 2 && i == 0 ==>
        delta == RouteTime(leg, depot, Spliced(route, i, load)) - RouteTime(leg, depot, route)
                 - SpliceDelta(leg, depot, route[0].pickup, load)
                 + SpliceDelta(leg, route[|route| - 1].dropoff, route[0].pickup, load)
      ensures |route| == 1 ==>
        delta == RouteTime(leg, depot, Spliced(route, i, load)) - RouteTime(leg, depot, route)
                 - leg(depot, load.pickup)
    {
      SpliceChange(leg, depot, route, i, load);
      var right := route[i];
      var delta := leg(load.dropoff, right.pickup) + leg(load.pickup, load.dropoff);
      if |route| == 1 then
        delta - leg(depot, right.pickup)
      else
        // route[i - 1] in Python: index -1 is the last load
        var left := route[if i == 0 then |route| - 1 else i - 1];
        delta - leg(left.dropoff, right.pickup) + leg(left.dropoff, load.pickup)
    }

    /** The route time after a hypothetical insertion; nothing is changed. */
    function GetTimeWithNewLoad(i: nat, load: Load): (t: real)
      reads this
      requires i < |route|
      ensures IsFresh() && |route| >= 2 && i >= 1 ==> t == RouteTime(leg, depot, Spliced(route, i, load))
    {
      routeTime + CalculateNewLoadDelta(i, load)
    }

    method InsertLoad(i: nat, load: Load)
      requires i < |route|
      modifies this
      ensures route == Spliced(old(route), i, load)
      ensures routeTime == old(routeTime) + old(CalculateNewLoadDelta(i, load))
      ensures old(IsFresh()) && old(|route|) >= 2 && i >= 1 ==> IsFresh()
    {
      var delta := CalculateNewLoadDelta(i, load);
      route := route[..i] + [load] + route[i..];
      routeTime := routeTime + delta;
    }

    method UpdateTime()
      modifies this
      ensures route == old(route)
      ensures IsFresh()
    {
      routeTime := CalculateRouteTime(leg, depot, route);
    }
  }
}
