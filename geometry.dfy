/** Points, loads and the abstract distance between points. */
module Geometry {

  /** A location; two points are the same key when their coordinates agree. */
  datatype Point = Point(x: real, y: real)

  /** A load identifier, kept as the text it was read from. */
  type LoadId = string

  /** A transport request: pick up at `pickup`, deliver at `dropoff`. */
  datatype Load = Load(id: LoadId, pickup: Point, dropoff: Point)

  /** A distance between two points. The square-root formula of the source is left abstract. */
  type Metric = (Point, Point) -> real

  ghost predicate Symmetric(dist: Metric)
  {
    forall p, q :: dist(p, q) == dist(q, p)
  }

  ghost predicate NonNegative(dist: Metric)
  {
    forall p, q :: dist(p, q) >= 0.0
  }
}
