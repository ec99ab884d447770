/**
  The pheromone field as a value: a grid of reals indexed column first
  (x outer, y inner), and the specifications of the engine's two
  reinforcement operations on it: deposit along routes and uniform
  evaporation.
 */
module Grids {
  import opened Geometry

  /** Column x, then row y, as the field is indexed. */
  type Grid = seq<seq<real>>

  predicate SameShape(g: Grid, h: Grid)
  {
    |g| == |h| && forall x :: 0 <= x < |g| ==> |g[x]| == |h[x]|
  }

  predicate InGrid(g: Grid, c: Coordinate)
  {
    0 <= c.x < |g| && 0 <= c.y < |g[c.x]|
  }

  predicate NonNegative(g: Grid)
  {
    forall x, y :: 0 <= x < |g| && 0 <= y < |g[x]| ==> g[x][y] >= 0.0
  }

  /** Two grids of the same shape that agree on every cell are equal. */
  lemma GridExtensionality(g: Grid, h: Grid)
    requires SameShape(g, h)
    requires forall x, y :: 0 <= x < |g| && 0 <= y < |g[x]| ==> g[x][y] == h[x][y]
    ensures g == h
  {
    forall x | 0 <= x < |g|
      ensures g[x] == h[x]
    {
      assert forall y :: 0 <= y < |g[x]| ==> g[x][y] == h[x][y];
    }
  }

  /** A width × length field holding v everywhere. */
  function Uniform(width: nat, length: nat, v: real): (g: Grid)
    ensures Rectangular(g, width, length)
    ensures forall x, y :: 0 <= x < width && 0 <= y < length ==> g[x][y] == v
  {
    seq(width, _ => seq(length, _ => v))
  }

  /** k copies of a added up: k·a, written as a sum so that the deposit proofs stay linear. */
  function Times(k: nat, a: real): real
  {
    if k == 0 then 0.0 else Times(k - 1, a) + a
  }

  lemma {:induction false} TimesProduct(k: nat, a: real)
    ensures Times(k, a) == k as real * a
  {
    if k > 0 {
      TimesProduct(k - 1, a);
      assert k as real * a == (k - 1) as real * a + a;
    }
  }

  lemma {:induction false} TimesNonNegative(k: nat, a: real)
    requires a >= 0.0
    ensures Times(k, a) >= 0.0
  {
    if k > 0 {
      TimesNonNegative(k - 1, a);
    }
  }

  /** How many times c occurs among cells. */
  function Count(cells: seq<Coordinate>, c: Coordinate): nat
  {
    if cells == [] then 0
    else Count(cells[..|cells| - 1], c) + (if cells[|cells| - 1] == c then 1 else 0)
  }

  /** Count is the multiplicity of c in the multiset of cells, so it is 0 exactly when c is absent. */
  lemma {:induction false} CountMultiplicity(cells: seq<Coordinate>, c: Coordinate)
    ensures Count(cells, c) == multiset(cells)[c]
    ensures Count(cells, c) == 0 <==> c !in cells
  {
    if cells != [] {
      var init := cells[..|cells| - 1];
      CountMultiplicity(init, c);
      assert cells == init + [cells[|cells| - 1]];
    }
  }

  // ---------------------------------------------------------------------
  // Deposit

  /**
    Adds amount to one cell. A cell outside the grid is left alone; callers
    that meet the engine's preconditions never name one.
   */
  function Deposit(g: Grid, c: Coordinate, amount: real): (r: Grid)
    ensures SameShape(r, g)
  {
    if InGrid(g, c) then g[c.x := g[c.x][c.y := g[c.x][c.y] + amount]] else g
  }

  /** Only the named cell changes, and it gains exactly amount. */
  lemma DepositCell(g: Grid, c: Coordinate, amount: real, x: int, y: int)
    requires 0 <= x < |g| && 0 <= y < |g[x]|
    ensures Deposit(g, c, amount)[x][y]
      == if Coordinate(x, y) == c then g[x][y] + amount else g[x][y]
  {
  }

  /** Deposits amount on each of cells, in order. */
  function DepositAll(g: Grid, cells: seq<Coordinate>, amount: real): (r: Grid)
    ensures SameShape(r, g)
  {
    if cells == [] then g
    else Deposit(DepositAll(g, cells[..|cells| - 1], amount), cells[|cells| - 1], amount)
  }

  /** Extending the deposited prefix by one cell deposits on that cell. */
  lemma DepositAllPrefix(g: Grid, cells: seq<Coordinate>, i: int, amount: real)
    requires 0 <= i < |cells|
    ensures DepositAll(g, cells[..i + 1], amount) == Deposit(DepositAll(g, cells[..i], amount), cells[i], amount)
  {
    assert cells[..i + 1][..i] == cells[..i];
  }

  /** Each cell gains amount once for every time it occurs among the cells. */
  lemma {:induction false} DepositAllCell(g: Grid, cells: seq<Coordinate>, amount: real, x: int, y: int)
    requires 0 <= x < |g| && 0 <= y < |g[x]|
    ensures DepositAll(g, cells, amount)[x][y]
      == g[x][y] + Times(Count(cells, Coordinate(x, y)), amount)
  {
    if cells != [] {
      var init := cells[..|cells| - 1];
      var c, last := Coordinate(x, y), cells[|cells| - 1];
      var h := DepositAll(g, init, amount);
      var k := Count(init, c);
      DepositAllCell(g, init, amount, x, y);
      assert h[x][y] == g[x][y] + Times(k, amount);
      DepositCell(h, last, amount, x, y);
      assert DepositAll(g, cells, amount) == Deposit(h, last, amount);
      if last == c {
        assert Count(cells, c) == k + 1;
      } else {
        assert Count(cells, c) == k;
      }
    }
  }

  /**
    The pheromone a route leaves on cell c: q / L for each of the L + 1 cells
    of its trail equal to c, and nothing for a route of no steps.
   */
  function RouteGain(route: Route, q: real, c: Coordinate): real
  {
    if route.Size() == 0 then 0.0
    else Times(Count(Trail(route.start, route.steps), c), q / route.Size() as real)
  }

  /**
    add_pheromone_route on the field: nothing for a route of no steps,
    otherwise q / L on the start cell and on every cell the replay reaches.
   */
  function DepositRoute(g: Grid, route: Route, q: real): (r: Grid)
    ensures SameShape(r, g)
    ensures route.Size() == 0 ==> r == g
  {
    if route.Size() == 0 then g
    else DepositAll(g, Trail(route.start, route.steps), q / route.Size() as real)
  }

  /** Every cell the replay of route visits lies in a width × length field. */
  predicate TrailWithin(route: Route, width: int, length: int)
  {
    var t := Trail(route.start, route.steps);
    forall i :: 0 <= i < |t| ==> 0 <= t[i].x < width && 0 <= t[i].y < length
  }

  /**
    Each cell gains k·q/L, k being the number of times it occurs on the trail;
    a cell the route never visits keeps its value.
   */
  lemma DepositRouteCell(g: Grid, route: Route, q: real, x: int, y: int)
    requires 0 <= x < |g| && 0 <= y < |g[x]|
    ensures DepositRoute(g, route, q)[x][y] == g[x][y] + RouteGain(route, q, Coordinate(x, y))
    ensures Coordinate(x, y) !in Trail(route.start, route.steps) ==>
      DepositRoute(g, route, q)[x][y] == g[x][y]
  {
    if route.Size() != 0 {
      var t, amount := Trail(route.start, route.steps), q / route.Size() as real;
      DepositAllCell(g, t, amount, x, y);
      assert DepositRoute(g, route, q) == DepositAll(g, t, amount);
      if Coordinate(x, y) !in t {
        CountMultiplicity(t, Coordinate(x, y));
      }
    }
  }

  function Sum(s: seq<real>): real
  {
    if s == [] then 0.0 else s[0] + Sum(s[1..])
  }

  /** The total amount of pheromone on the field. */
  function Total(g: Grid): real
  {
    if g == [] then 0.0 else Sum(g[0]) + Total(g[1..])
  }

  lemma {:induction false} SumBump(s: seq<real>, i: int, amount: real)
    requires 0 <= i < |s|
    ensures Sum(s[i := s[i] + amount]) == Sum(s) + amount
  {
    if i > 0 {
      SumBump(s[1..], i - 1, amount);
      assert s[i := s[i] + amount][1..] == s[1..][i - 1 := s[i] + amount];
    } else {
      assert s[i := s[i] + amount][1..] == s[1..];
    }
  }

  /** One deposit raises the field total by exactly its amount. */
  lemma {:induction false} TotalDeposit(g: Grid, c: Coordinate, amount: real)
    requires InGrid(g, c)
    ensures Total(Deposit(g, c, amount)) == Total(g) + amount
  {
    var r := g[c.x := g[c.x][c.y := g[c.x][c.y] + amount]];
    if c.x == 0 {
      SumBump(g[0], c.y, amount);
      assert r[1..] == g[1..];
    } else {
      TotalDeposit(g[1..], Coordinate(c.x - 1, c.y), amount);
      assert r[1..] == g[1..][c.x - 1 := g[c.x][c.y := g[c.x][c.y] + amount]];
    }
  }

  /** Depositing amount on n cells inside the grid raises the total by n·amount. */
  lemma {:induction false} TotalDepositAll(g: Grid, cells: seq<Coordinate>, amount: real)
    requires forall i :: 0 <= i < |cells| ==> InGrid(g, cells[i])
    ensures Total(DepositAll(g, cells, amount)) == Total(g) + Times(|cells|, amount)
  {
    if cells != [] {
      var init := cells[..|cells| - 1];
      var h := DepositAll(g, init, amount);
      TotalDepositAll(g, init, amount);
      assert Total(h) == Total(g) + Times(|init|, amount);
      TotalDeposit(h, cells[|cells| - 1], amount);
      assert Total(DepositAll(g, cells, amount)) == Total(h) + amount;
    }
  }

  /**
    A route of L > 0 steps inside the grid adds exactly (L + 1)·q/L in all:
    q spread over the L steps, plus one more share q/L on the start cell.
   */
  lemma TotalDepositRoute(g: Grid, width: int, length: int, route: Route, q: real)
    requires route.Size() > 0
    requires Rectangular(g, width, length) && TrailWithin(route, width, length)
    ensures Total(DepositRoute(g, route, q)) == Total(g) + q + q / route.Size() as real
  {
    TrailInGrid(g, width, length, route);
    TotalDepositRouteShares(g, route, q);
    SharesSum(route.Size(), q);
  }

  /** The same gain as L + 1 shares of q / L. */
  lemma TotalDepositRouteShares(g: Grid, route: Route, q: real)
    requires route.Size() > 0
    requires forall i :: 0 <= i < route.Size() + 1 ==> InGrid(g, Trail(route.start, route.steps)[i])
    ensures Total(DepositRoute(g, route, q)) == Total(g) + Times(route.Size() + 1, q / route.Size() as real)
  {
    var t := Trail(route.start, route.steps);
    TotalDepositAll(g, t, q / route.Size() as real);
    assert DepositRoute(g, route, q) == DepositAll(g, t, q / route.Size() as real);
  }

  /** n + 1 shares of q / n make q and one share more. */
  lemma SharesSum(n: nat, q: real)
    requires n > 0
    ensures Times(n + 1, q / n as real) == q + q / n as real
  {
    var share := q / n as real;
    TimesProduct(n, share);
    assert n as real * share == q;
  }

  lemma TrailInGrid(g: Grid, width: int, length: int, route: Route)
    requires Rectangular(g, width, length) && TrailWithin(route, width, length)
    ensures forall i :: 0 <= i < route.Size() + 1 ==> InGrid(g, Trail(route.start, route.steps)[i])
  {
  }

  /** Deposits of non-negative strength keep a non-negative field non-negative. */
  lemma DepositRouteNonNegative(g: Grid, route: Route, q: real)
    requires NonNegative(g) && q >= 0.0
    ensures NonNegative(DepositRoute(g, route, q))
  {
    var r := DepositRoute(g, route, q);
    forall x, y | 0 <= x < |r| && 0 <= y < |r[x]|
      ensures r[x][y] >= 0.0
    {
      DepositRouteCell(g, route, q, x, y);
      if route.Size() != 0 {
        assert q / route.Size() as real >= 0.0;
        TimesNonNegative(Count(Trail(route.start, route.steps), Coordinate(x, y)), q / route.Size() as real);
      }
    }
  }

  // ---------------------------------------------------------------------
  // Deposits for a list of routes

  /** add_pheromone_routes on the field: each route in turn, same q. */
  function DepositRoutes(g: Grid, routes: seq<Route>, q: real): (r: Grid)
    ensures SameShape(r, g)
  {
    if routes == [] then g
    else DepositRoute(DepositRoutes(g, routes[..|routes| - 1], q), routes[|routes| - 1], q)
  }

  /** What a list of routes leaves on cell c, summed route by route. */
  function RoutesGain(routes: seq<Route>, q: real, c: Coordinate): real
  {
    if routes == [] then 0.0
    else RoutesGain(routes[..|routes| - 1], q, c) + RouteGain(routes[|routes| - 1], q, c)
  }

  lemma {:induction false} DepositRoutesCell(g: Grid, routes: seq<Route>, q: real, x: int, y: int)
    requires 0 <= x < |g| && 0 <= y < |g[x]|
    ensures DepositRoutes(g, routes, q)[x][y] == g[x][y] + RoutesGain(routes, q, Coordinate(x, y))
  {
    if routes != [] {
      var init := routes[..|routes| - 1];
      DepositRoutesCell(g, init, q, x, y);
      DepositRouteCell(DepositRoutes(g, init, q), routes[|routes| - 1], q, x, y);
    }
  }

  /** Taking out the route at index j takes its gain out of the sum. */
  lemma {:induction false} RoutesGainRemove(routes: seq<Route>, j: int, q: real, c: Coordinate)
    requires 0 <= j < |routes|
    ensures RoutesGain(routes, q, c)
      == RoutesGain(routes[..j] + routes[j + 1..], q, c) + RouteGain(routes[j], q, c)
  {
    var n := |routes|;
    if j == n - 1 {
      assert routes[..j] + routes[j + 1..] == routes[..n - 1];
    } else {
      var init := routes[..n - 1];
      RoutesGainRemove(init, j, q, c);
      var rest := routes[..j] + routes[j + 1..];
      assert rest[..|rest| - 1] == init[..j] + init[j + 1..];
      assert rest[|rest| - 1] == routes[n - 1];
    }
  }

  /** The gain of a list of routes depends only on which routes it holds. */
  lemma {:induction false} RoutesGainPermutation(routes: seq<Route>, others: seq<Route>, q: real, c: Coordinate)
    requires multiset(routes) == multiset(others)
    ensures RoutesGain(routes, q, c) == RoutesGain(others, q, c)
  {
    if routes != [] {
      var n := |routes|;
      var last := routes[n - 1];
      assert routes == routes[..n - 1] + [last];
      assert last in multiset(others);
      var j :| 0 <= j < |others| && others[j] == last;
      var rest := others[..j] + others[j + 1..];
      assert others == others[..j] + [last] + others[j + 1..];
      assert multiset(rest) == multiset(others) - multiset{last};
      RoutesGainPermutation(routes[..n - 1], rest, q, c);
      RoutesGainRemove(others, j, q, c);
    } else {
      assert |others| == |multiset(others)| == 0;
    }
  }

  /** Deposits commute: the resulting field does not depend on the order of routes. */
  lemma DepositRoutesOrderIndependent(g: Grid, routes: seq<Route>, others: seq<Route>, q: real)
    requires multiset(routes) == multiset(others)
    ensures DepositRoutes(g, routes, q) == DepositRoutes(g, others, q)
  {
    var r, s := DepositRoutes(g, routes, q), DepositRoutes(g, others, q);
    forall x, y | 0 <= x < |r| && 0 <= y < |r[x]|
      ensures r[x][y] == s[x][y]
    {
      DepositRoutesCell(g, routes, q, x, y);
      DepositRoutesCell(g, others, q, x, y);
      RoutesGainPermutation(routes, others, q, Coordinate(x, y));
    }
    GridExtensionality(r, s);
  }

  // ---------------------------------------------------------------------
  // Evaporation

  /** One column of the field, every cell multiplied by rho. */
  function ScaleColumn(s: seq<real>, rho: real): (r: seq<real>)
    ensures |r| == |s|
  {
    seq(|s|, y requires 0 <= y < |s| => s[y] * rho)
  }

  /** evaporate on the field: every cell multiplied by rho. */
  function Scale(g: Grid, rho: real): (r: Grid)
    ensures SameShape(r, g)
  {
    seq(|g|, x requires 0 <= x < |g| => ScaleColumn(g[x], rho))
  }

  /** Every cell is its old value times rho. */
  lemma ScaleCell(g: Grid, rho: real, x: int, y: int)
    requires 0 <= x < |g| && 0 <= y < |g[x]|
    ensures Scale(g, rho)[x][y] == g[x][y] * rho
  {
  }

  /** evaporate(1) is the identity. */
  lemma ScaleOne(g: Grid)
    ensures Scale(g, 1.0) == g
  {
    forall x, y | 0 <= x < |g| && 0 <= y < |g[x]|
      ensures Scale(g, 1.0)[x][y] == g[x][y]
    {
      ScaleCell(g, 1.0, x, y);
    }
    GridExtensionality(Scale(g, 1.0), g);
  }

  /** A non-negative rate keeps a non-negative field non-negative. */
  lemma ScaleNonNegative(g: Grid, rho: real)
    requires NonNegative(g) && rho >= 0.0
    ensures NonNegative(Scale(g, rho))
  {
    var r := Scale(g, rho);
    forall x, y | 0 <= x < |r| && 0 <= y < |r[x]|
      ensures r[x][y] >= 0.0
    {
      ScaleCell(g, rho, x, y);
    }
  }

  /** With 0 < rho < 1 every positive cell strictly decreases. */
  lemma ScaleDecreases(g: Grid, rho: real, x: int, y: int)
    requires 0.0 < rho < 1.0
    requires 0 <= x < |g| && 0 <= y < |g[x]| && g[x][y] > 0.0
    ensures 0.0 < Scale(g, rho)[x][y] < g[x][y]
  {
    ScaleCell(g, rho, x, y);
  }
}
