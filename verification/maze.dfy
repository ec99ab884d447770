/**
  The maze of the ant-colony engine: a fixed wall grid (1 = open) and a
  mutable width × length pheromone field, both indexed column first.
 */
module Mazes {
  import opened Geometry
  import opened Grids
  import opened LayoutText

  /** What get_surrounding_pheromone returns: neighbours E, N, W, S, their pheromone, and its sum. */
  datatype Surrounding = Surrounding(positions: seq<Coordinate>, values: seq<real>, sum: real)

  class Maze {
    const walls: seq<seq<int>>
    const width: nat
    const length: nat
    var pheromones: array2<real>

    ghost predicate Valid()
      reads this
    {
      && Rectangular(walls, width, length)
      && pheromones.Length0 == width
      && pheromones.Length1 == length
    }

    /** Column x of the pheromone field as a value. */
    ghost function Column(x: int): (col: seq<real>)
      reads this, pheromones
      requires 0 <= x < pheromones.Length0
      ensures |col| == pheromones.Length1
      ensures forall y :: 0 <= y < pheromones.Length1 ==> col[y] == pheromones[x, y]
    {
      seq(pheromones.Length1, y requires 0 <= x < pheromones.Length0 && 0 <= y < pheromones.Length1 reads this, pheromones =>
        pheromones[x, y])
    }

    /** The pheromone field as a value. */
    ghost function Field(): (g: Grid)
      reads this, pheromones
      ensures Rectangular(g, pheromones.Length0, pheromones.Length1)
      ensures forall x :: 0 <= x < pheromones.Length0 ==> g[x] == Column(x)
    {
      seq(pheromones.Length0, x requires 0 <= x < pheromones.Length0 reads this, pheromones => Column(x))
    }

    /** np.ones: a fresh width × length array holding 1.0 everywhere. */
    static method Ones(width: nat, length: nat) returns (a: array2<real>)
      ensures fresh(a) && a.Length0 == width && a.Length1 == length
      ensures forall x, y :: 0 <= x < width && 0 <= y < length ==> a[x, y] == 1.0
    {
      a := new real[width, length]((x, y) => 1.0);
    }

    constructor (walls: seq<seq<int>>, width: nat, length: nat)
      requires Rectangular(walls, width, length)
      ensures this.walls == walls && this.width == width && this.length == length
      ensures Valid() && fresh(pheromones)
      ensures Field() == Uniform(width, length, 1.0)
    {
      this.walls := walls;
      this.width := width;
      this.length := length;
      var ones := Ones(width, length);
      pheromones := ones;
      new;
      GridExtensionality(Field(), Uniform(width, length, 1.0));
    }

    /** Replaces the field by a fresh one holding 1.0 in every cell. */
    method InitializePheromones()
      requires Valid()
      modifies this
      ensures Valid() && fresh(pheromones)
      ensures Field() == Uniform(width, length, 1.0)
    {
      pheromones := Ones(width, length);
      GridExtensionality(Field(), Uniform(width, length, 1.0));
    }

    /** Back to the start field, whatever was deposited or evaporated before. */
    method Reset()
      requires Valid()
      modifies this
      ensures Valid() && fresh(pheromones)
      ensures Field() == Uniform(width, length, 1.0)
    {
      InitializePheromones();
    }

    /** self.pheromones[x, y] += amount. */
    method DepositAt(c: Coordinate, amount: real)
      requires Valid() && 0 <= c.x < width && 0 <= c.y < length
      modifies pheromones
      ensures Field() == Deposit(old(Field()), c, amount)
    {
      pheromones[c.x, c.y] := pheromones[c.x, c.y] + amount;
      forall x, y | 0 <= x < width && 0 <= y < length
        ensures Field()[x][y] == Deposit(old(Field()), c, amount)[x][y]
      {
        DepositCell(old(Field()), c, amount, x, y);
      }
      GridExtensionality(Field(), Deposit(old(Field()), c, amount));
    }

    /**
      Replays route from its start and adds q / L on the start cell and on
      each cell reached, L being the number of steps; a route of no steps
      leaves the field alone.
     */
    method AddPheromoneRoute(route: Route, q: real)
      requires Valid()
      requires route.Size() > 0 ==> TrailWithin(route, width, length)
      modifies pheromones
      ensures Field() == DepositRoute(old(Field()), route, q)
      ensures route.Size() == 0 ==> Field() == old(Field())
    {
      var r := route.steps;
      var c := route.start;
      var routeLen := route.Size();
      ghost var trail := Trail(route.start, route.steps);
      if routeLen != 0 {
        DepositAt(c, q / routeLen as real);
        DepositAllPrefix(old(Field()), trail, 0, q / routeLen as real);
      }
      var i := 0;
      while i < |r|
        invariant 0 <= i <= |r|
        invariant c == trail[i]
        invariant routeLen == 0 ==> Field() == old(Field())
        invariant routeLen > 0 ==> Field() == DepositAll(old(Field()), trail[..i + 1], q / routeLen as real)
      {
        TrailStep(route.start, r, i);
        c := Move(c, r[i]);
        DepositAt(c, q / routeLen as real);
        DepositAllPrefix(old(Field()), trail, i + 1, q / routeLen as real);
        i := i + 1;
      }
      if routeLen > 0 {
        assert trail[..|r| + 1] == trail;
      }
    }

    /** add_pheromone_route for each route in turn, with the same q. */
    method AddPheromoneRoutes(routes: seq<Route>, q: real)
      requires Valid()
      requires forall i :: 0 <= i < |routes| && routes[i].Size() > 0 ==> TrailWithin(routes[i], width, length)
      modifies pheromones
      ensures Field() == DepositRoutes(old(Field()), routes, q)
    {
      var i := 0;
      while i < |routes|
        invariant 0 <= i <= |routes|
        invariant Field() == DepositRoutes(old(Field()), routes[..i], q)
      {
        ghost var before := Field();
        AddPheromoneRoute(routes[i], q);
        assert routes[..i + 1][..i] == routes[..i];
        assert DepositRoutes(old(Field()), routes[..i + 1], q) == DepositRoute(before, routes[i], q);
        i := i + 1;
      }
      assert routes[..|routes|] == routes;
    }

    /** Multiplies every cell by rho at once, as numpy's in-place *= does. */
    method Evaporate(rho: real)
      requires Valid()
      modifies pheromones
      ensures Field() == Scale(old(Field()), rho)
    {
      ghost var before := Field();
      forall x, y | 0 <= x < width && 0 <= y < length {
        pheromones[x, y] := pheromones[x, y] * rho;
      }
      ghost var after := Field();
      forall x, y | 0 <= x < width && 0 <= y < length
        ensures after[x][y] == Scale(before, rho)[x][y]
      {
        assert after[x][y] == pheromones[x, y];
        assert before[x][y] == old(pheromones[x, y]);
        ScaleCell(before, rho, x, y);
      }
      GridExtensionality(after, Scale(before, rho));
    }

    /** An in-bounds position lies inside the grid on an open (1) cell. */
    predicate InBounds(p: Coordinate)
      reads this
      requires Valid()
      ensures InBounds(p) <==> 0 <= p.x < width && 0 <= p.y < length && walls[p.x][p.y] == 1
    {
      XBetween(p, 0, width) && YBetween(p, 0, length) && walls[p.x][p.y] == 1
    }

    /** The pheromone on p, or 0 when p is off the grid or a wall. */
    function GetPheromone(p: Coordinate): (r: real)
      reads this, pheromones
      requires Valid()
      ensures InBounds(p) ==> r == Field()[p.x][p.y]
      ensures !InBounds(p) ==> r == 0.0
    {
      if InBounds(p) then pheromones[p.x, p.y] else 0.0
    }

    /** The four neighbours in the order E, N, W, S, their pheromone, and its sum. */
    function GetSurroundingPheromone(p: Coordinate): (r: Surrounding)
      reads this, pheromones
      requires Valid()
      ensures r.positions == [Move(p, East), Move(p, North), Move(p, West), Move(p, South)]
      ensures |r.values| == 4
      ensures forall i :: 0 <= i < 4 ==> r.values[i] == GetPheromone(r.positions[i])
      ensures r.sum == r.values[0] + r.values[1] + r.values[2] + r.values[3]
    {
      var posE := Move(p, East);
      var posN := Move(p, North);
      var posW := Move(p, West);
      var posS := Move(p, South);
      var e := GetPheromone(posE);
      var n := GetPheromone(posN);
      var w := GetPheromone(posW);
      var s := GetPheromone(posS);
      Surrounding([posE, posN, posW, posS], [e, n, w, s], n + s + e + w)
    }

    /** With no neighbour in bounds, on any field, the four values and their sum are 0. */
    lemma SurroundingIsolated(p: Coordinate)
      requires Valid()
      ensures (forall i :: 0 <= i < 4 ==> !InBounds(GetSurroundingPheromone(p).positions[i])) ==>
        GetSurroundingPheromone(p).values == [0.0, 0.0, 0.0, 0.0] && GetSurroundingPheromone(p).sum == 0.0
    {
    }

    /**
      On a non-negative field the sum is non-negative, and it is 0 exactly
      when every neighbour reads 0.
     */
    lemma SurroundingSumZero(p: Coordinate)
      requires Valid() && NonNegative(Field())
      ensures GetSurroundingPheromone(p).sum >= 0.0
      ensures GetSurroundingPheromone(p).sum == 0.0 <==>
        forall i :: 0 <= i < 4 ==> GetSurroundingPheromone(p).values[i] == 0.0
    {
      var r := GetSurroundingPheromone(p);
      forall i | 0 <= i < 4
        ensures r.values[i] >= 0.0
      {
        var c := r.positions[i];
        if InBounds(c) {
          assert r.values[i] == Field()[c.x][c.y];
        }
      }
    }

    /** __str__: the header line, then row by row the wall value of each column. */
    method ToString() returns (s: string)
      requires Valid()
      ensures s == Render(walls, width, length)
    {
      ghost var lines := RenderLines(walls, width, length);
      s := "";
      s := s + IntToString(width);
      s := s + " ";
      s := s + IntToString(length);
      s := s + " \n";
      RenderHeader(walls, width, length);
      var y := 0;
      while y < length
        invariant 0 <= y <= length
        invariant s == JoinLines(lines[..y + 1])
      {
        var row := RowText(y);
        s := s + row;
        s := s + "\n";
        RenderRowStep(walls, width, length, y);
        y := y + 1;
      }
      assert lines[..length + 1] == lines;
    }

    /** The inner loop of __str__: the wall value of each column of row y, each followed by a space. */
    method RowText(y: nat) returns (row: string)
      requires Valid() && y < length
      ensures row == Spaced(RowTokens(walls, width, length, y))
    {
      ghost var tokens := RowTokens(walls, width, length, y);
      row := "";
      var x := 0;
      while x < width
        invariant 0 <= x <= width
        invariant row == Spaced(tokens[..x])
      {
        row := row + IntToString(walls[x][y]);
        row := row + " ";
        RenderCellStep(walls, width, length, y, x);
        x := x + 1;
      }
      assert tokens[..width] == tokens;
    }

    /**
      The parsing part of create_maze, given the lines of the file: the
      dimensions from the header, then every row appended column by column.
     */
    static method ParseMaze(lines: seq<string>) returns (r: Result<Layout>)
      ensures r == ParseLayout(lines)
    {
      if |lines| == 0 {
        return Err(IndexError);
      }
      var dimensions := Split(lines[0]);
      var w := ParseInt(dimensions[0]);
      if w.None? {
        return Err(ValueError);
      }
      var width := w.value;
      if |dimensions| < 2 {
        return Err(IndexError);
      }
      var l := ParseInt(dimensions[1]);
      if l.None? {
        return Err(ValueError);
      }
      var length := l.value;

      var layout: seq<seq<int>> := [];
      var x := 0;
      while x < width
        invariant 0 <= x && (x <= width || x == 0)
        invariant layout == seq(x, _ => [])
      {
        layout := layout + [[]];
        x := x + 1;
      }
      assert layout == EmptyColumns(width);

      var y := 0;
      while y < length
        invariant 0 <= y && (y <= length || y == 0)
        invariant width <= |layout|
        invariant ParseRows(lines, width, length, y, layout) == ParseRows(lines, width, length, 0, EmptyColumns(width))
      {
        if y + 1 >= |lines| {
          return Err(IndexError);
        }
        var line := Split(lines[y + 1]);
        ghost var start := layout;
        x := 0;
        while x < width
          invariant 0 <= x && (x <= width || x == 0)
          invariant |layout| == |start|
          invariant ParseRow(line, width, x, layout) == ParseRow(line, width, 0, start)
        {
          if x >= |line| {
            return Err(IndexError);
          }
          if line[x] != "" {
            var state := ParseInt(line[x]);
            if state.None? {
              return Err(ValueError);
            }
            layout := layout[x := layout[x] + [state.value]];
          }
          x := x + 1;
        }
        y := y + 1;
      }
      if width < 0 || length < 0 {
        return Err(ValueError);
      }
      return Ok(Layout(width, length, layout));
    }
  }
}
