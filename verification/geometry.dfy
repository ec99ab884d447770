/**
  Grid positions, compass directions and ant routes: the value types the
  pheromone engine is driven by. A coordinate is an (x, y) pair whose x grows
  eastwards and whose y grows southwards (the row index of the layout text).
 */
module Geometry {

  datatype Coordinate = Coordinate(x: int, y: int)

  /** Coordinate.x_between(lo, hi): lo <= x < hi. */
  predicate XBetween(c: Coordinate, lo: int, hi: int)
  {
    lo <= c.x < hi
  }

  /** Coordinate.y_between(lo, hi): lo <= y < hi. */
  predicate YBetween(c: Coordinate, lo: int, hi: int)
  {
    lo <= c.y < hi
  }

  /** A grid of width columns, each of length cells, indexed column first. */
  predicate Rectangular<T>(g: seq<seq<T>>, width: int, length: int)
  {
    |g| == width && forall x :: 0 <= x < |g| ==> |g[x]| == length
  }

  datatype Direction = East | North | West | South

  /** The unit displacement of a direction: exactly one axis moves, by one. */
  function Offset(d: Direction): (r: (int, int))
    ensures (r.0 == 0) != (r.1 == 0)
    ensures -1 <= r.0 <= 1 && -1 <= r.1 <= 1
  {
    match d
    case East => (1, 0)
    case North => (0, -1)
    case West => (-1, 0)
    case South => (0, 1)
  }

  /** Coordinate.add_direction: a new coordinate one step away. */
  function Move(c: Coordinate, d: Direction): Coordinate
  {
    Coordinate(c.x + Offset(d).0, c.y + Offset(d).1)
  }

  /** A move changes exactly one coordinate, by one. */
  lemma MoveAdjacent(c: Coordinate, d: Direction)
    ensures (Move(c, d).x == c.x) != (Move(c, d).y == c.y)
    ensures -1 <= Move(c, d).x - c.x <= 1 && -1 <= Move(c, d).y - c.y <= 1
  {
  }

  /**
    A route: the start cell an ant set out from and the directions it took,
    one per step. Its size is the number of steps.
   */
  datatype Route = Route(start: Coordinate, steps: seq<Direction>)
  {
    function Size(): nat
    {
      |steps|
    }
  }

  /**
    The cells a route visits when replayed from its start: the start cell
    followed by one cell per step, each one step from its predecessor.
   */
  function Trail(start: Coordinate, steps: seq<Direction>): (t: seq<Coordinate>)
    ensures |t| == |steps| + 1
    ensures t[0] == start
  {
    if steps == [] then [start]
    else
      var prefix := Trail(start, steps[..|steps| - 1]);
      prefix + [Move(prefix[|prefix| - 1], steps[|steps| - 1])]
  }

  /** Each cell of a trail is one step, the route's i-th, from the one before it. */
  lemma {:induction false} TrailStep(start: Coordinate, steps: seq<Direction>, i: int)
    requires 0 <= i < |steps|
    ensures Trail(start, steps)[i + 1] == Move(Trail(start, steps)[i], steps[i])
  {
    var n := |steps|;
    if i < n - 1 {
      TrailStep(start, steps[..n - 1], i);
      assert steps[..n - 1][i] == steps[i];
    }
  }
}
