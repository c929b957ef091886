/**
 * The distance cache (src/helper.py: DistanceMatrix) and the cached distance
 * the router uses (src/main.py: euclidean_distance).
 *
 * The cache maps an ordered pair of points to the distance between them. It
 * is filled once, for every load's pickup -> dropoff and for every pair
 * (pickup or depot, dropoff or depot), and only read afterwards, so it is a
 * value here. The singleton the source keeps in a module global is passed in
 * explicitly; the distance formula itself is the parameter `dist`.
 */
module DistanceMatrices {
  import opened Common
  import opened Geometry
  import Routes

  /** A key: the coordinates of the two endpoints, in order. */
  type Key = (Point, Point)

  datatype DistanceMatrix = DistanceMatrix(matrix: map<Key, real>)

  /** `[depot] + [load.pickup for load in loads]` */
  function Pickups(depot: Point, loads: seq<Load>): (s: seq<Point>)
  {
    [depot] + seq(|loads|, k requires 0 <= k < |loads| => loads[k].pickup)
  }

  /** `[depot] + [load.dropoff for load in loads]` */
  function Dropoffs(depot: Point, loads: seq<Load>): (s: seq<Point>)
  {
    [depot] + seq(|loads|, k requires 0 <= k < |loads| => loads[k].dropoff)
  }

  /** The pickup -> dropoff key of every load, in order. */
  function LoadLegs(loads: seq<Load>): (s: seq<Key>)
  {
    seq(|loads|, k requires 0 <= k < |loads| => (loads[k].pickup, loads[k].dropoff))
  }

  /** The keys the cache is filled with. */
  ghost predicate Registered(depot: Point, loads: seq<Load>, k: Key)
  {
    k in LoadLegs(loads) || (k.0 in Pickups(depot, loads) && k.1 in Dropoffs(depot, loads))
  }

  /** Every stored value is the distance between its key's endpoints. */
  ghost predicate Consistent(dm: DistanceMatrix, dist: Metric)
  {
    forall k :: k in dm.matrix ==> dm.matrix[k] == dist(k.0, k.1)
  }

  /** create_distance_matrix: the two filling loops. */
  method CreateDistanceMatrix(loads: seq<Load>, depot: Point, dist: Metric) returns (dm: DistanceMatrix)
    ensures forall k :: k in dm.matrix <==> Registered(depot, loads, k)
    ensures Consistent(dm, dist)
  {
    var m: map<Key, real> := map[];
    for t := 0 to |loads|
      invariant forall k :: k in m <==> k in LoadLegs(loads)[..t]
      invariant forall k :: k in m ==> m[k] == dist(k.0, k.1)
    {
      var load := loads[t];
      assert LoadLegs(loads)[..t + 1] == LoadLegs(loads)[..t] + [(load.pickup, load.dropoff)];
      m := m[(load.pickup, load.dropoff) := dist(load.pickup, load.dropoff)];
    }
    assert LoadLegs(loads)[..|loads|] == LoadLegs(loads);
    var pickups := Pickups(depot, loads);
    var dropoffs := Dropoffs(depot, loads);
    for a := 0 to |pickups|
      invariant forall k :: k in m <==> k in LoadLegs(loads) || (k.0 in pickups[..a] && k.1 in dropoffs)
      invariant forall k :: k in m ==> m[k] == dist(k.0, k.1)
    {
      for b := 0 to |dropoffs|
        invariant forall k :: k in m <==>
          k in LoadLegs(loads) || (k.0 in pickups[..a] && k.1 in dropoffs) || (k.0 == pickups[a] && k.1 in dropoffs[..b])
        invariant forall k :: k in m ==> m[k] == dist(k.0, k.1)
      {
        assert dropoffs[..b + 1] == dropoffs[..b] + [dropoffs[b]];
        m := m[(pickups[a], dropoffs[b]) := dist(pickups[a], dropoffs[b])];
      }
      assert dropoffs[..|dropoffs|] == dropoffs;
      assert pickups[..a + 1] == pickups[..a] + [pickups[a]];
    }
    assert pickups[..|pickups|] == pickups;
    dm := DistanceMatrix(m);
  }

  /** check_key: the pair is stored in one order or the other. */
  function CheckKey(dm: DistanceMatrix, i: Point, j: Point): (r: bool)
    ensures r <==> exists k :: k in dm.matrix && {k.0, k.1} == {i, j}
  {
    (i, j) in dm.matrix || (j, i) in dm.matrix
  }

  /** get: the value stored under (i, j), else the one under (j, i). */
  function Get(dm: DistanceMatrix, i: Point, j: Point): (r: real)
    requires CheckKey(dm, i, j)
    ensures exists k :: k in dm.matrix && {k.0, k.1} == {i, j} && dm.matrix[k] == r
    ensures (i, j) in dm.matrix ==> r == dm.matrix[(i, j)]
  {
    if (i, j) in dm.matrix then dm.matrix[(i, j)] else dm.matrix[(j, i)]
  }

  /**
   * euclidean_distance with the cache passed in: the cached value when the
   * pair is stored, the direct distance otherwise.
   */
  function EuclideanDistance(cache: Option<DistanceMatrix>, dist: Metric, p: Point, q: Point): (r: real)
    ensures cache.Some? && Consistent(cache.value, dist) ==> r == dist(p, q) || r == dist(q, p)
    ensures cache.Some? && !CheckKey(cache.value, p, q) ==> r == dist(p, q)
    ensures cache.None? ==> r == dist(p, q)
  {
    if cache.Some? && CheckKey(cache.value, p, q) then Get(cache.value, p, q) else dist(p, q)
  }

  lemma CheckKeySymmetric(dm: DistanceMatrix, i: Point, j: Point)
    ensures CheckKey(dm, i, j) == CheckKey(dm, j, i)
  {
  }

  /** A hit in either order returns the distance itself when the distance is symmetric. */
  lemma GetIsDistance(dm: DistanceMatrix, dist: Metric, i: Point, j: Point)
    requires Consistent(dm, dist) && Symmetric(dist)
    requires CheckKey(dm, i, j)
    ensures Get(dm, i, j) == dist(i, j) && Get(dm, j, i) == dist(i, j)
  {
  }

  /** A filled cache changes no distance: the cached leg equals the direct distance everywhere. */
  lemma CachedDistanceIsDistance(dm: DistanceMatrix, dist: Metric, p: Point, q: Point)
    requires Consistent(dm, dist) && Symmetric(dist)
    ensures EuclideanDistance(Some(dm), dist, p, q) == dist(p, q)
  {
  }

  /** Every pair drawn from (depot or pickup) x (depot or dropoff), in either order, is a hit. */
  lemma PickupDropoffPairsHit(dm: DistanceMatrix, depot: Point, loads: seq<Load>, p: Point, q: Point)
    requires forall k :: k in dm.matrix <==> Registered(depot, loads, k)
    requires p in Pickups(depot, loads) && q in Dropoffs(depot, loads)
    ensures CheckKey(dm, p, q) && CheckKey(dm, q, p)
  {
    assert Registered(depot, loads, (p, q));
  }

  /**
   * The cache is closed for routing: every leg of the visiting sequence of a
   * route built from the problem's loads is stored in one order or the other.
   */
  lemma {:induction false} RouteLegsHit(dm: DistanceMatrix, depot: Point, loads: seq<Load>, route: seq<Load>)
    requires forall k :: k in dm.matrix <==> Registered(depot, loads, k)
    requires forall l :: l in route ==> l in loads
    ensures var s := Routes.Locations(depot, route);
      forall k :: 0 <= k < |s| - 1 ==> CheckKey(dm, s[k], s[k + 1])
    decreases |route|
  {
    var s := Routes.Locations(depot, route);
    var ps, ds := Pickups(depot, loads), Dropoffs(depot, loads);
    assert depot == ps[0] && depot == ds[0];
    if |route| == 0 {
      assert s == [depot, depot];
      PickupDropoffPairsHit(dm, depot, loads, depot, depot);
    } else {
      var r := route[..|route| - 1];
      var l := route[|route| - 1];
      RouteLegsHit(dm, depot, loads, r);
      var s' := Routes.Locations(depot, r);
      assert l in loads;
      var n :| 0 <= n < |loads| && loads[n] == l;
      assert ps[n + 1] == l.pickup && ds[n + 1] == l.dropoff;
      // the stops before the new load, depot first; its last point is the depot or a dropoff
      var front := [depot] + Routes.Stops(r);
      assert s' == front + [depot];
      assert s == front + [l.pickup, l.dropoff, depot];
      assert front[|front| - 1] in ds by {
        if |r| > 0 {
          assert r[|r| - 1] in loads;
          var m :| 0 <= m < |loads| && loads[m] == r[|r| - 1];
          assert ds[m + 1] == r[|r| - 1].dropoff;
        }
      }
      forall k | 0 <= k < |s| - 1
        ensures CheckKey(dm, s[k], s[k + 1])
      {
        if k < |front| - 1 {
          assert s[k] == s'[k] && s[k + 1] == s'[k + 1];
        } else if k == |front| - 1 {
          PickupDropoffPairsHit(dm, depot, loads, l.pickup, front[|front| - 1]);
        } else if k == |front| {
          PickupDropoffPairsHit(dm, depot, loads, l.pickup, l.dropoff);
        } else {
          PickupDropoffPairsHit(dm, depot, loads, depot, l.dropoff);
        }
      }
    }
  }
}
