/**
 * The `Maze` class: construction with the recursive-backtracker generator, the three
 * solvers `random_mouse`, `dfs` and `dijkstra`, and `shortest_path`, which runs one of them
 * and stamps its path into a copy of the grid.
 */
module Mazes {
  import opened Wrappers
  import opened Grid
  import opened Carving
  import opened Backtracking
  import opened Routes
  import opened Search

  class Maze {
    var width: nat
    var height: nat
    /** `arr[y][x]` is the cell at column `x`, row `y`. */
    var arr: Cells
    var start: Pos
    /** `None` when an explicit end was passed in: the code then never assigns `self.end`. */
    var end: Option<Pos>

    ghost predicate Valid()
      reads this
    {
      Shaped(arr, width, height) && NoMarkers(arr) && start == Pos(1, 1) &&
      (end.Some? ==> end.value == Pos(width - 2, height - 2))
    }

    /** The part of `__init__` before generation, for the default `start`. */
    constructor Blank(width: nat, height: nat, endArg: Option<Pos>)
      ensures Valid() && this.width == width && this.height == height
      ensures arr == AllWalls(width, height)
      ensures end == if endArg.None? then Some(Pos(width - 2, height - 2)) else None
    {
      this.width := width;
      this.height := height;
      arr := AllWalls(width, height);
      start := Pos(1, 1);
      end := if endArg.None? then Some(Pos(width - 2, height - 2)) else None;
    }

    /**
     * `Maze(width, height, start, end)`: an explicit `start` is never assigned, so generation
     * fails on reading it; otherwise the all-wall grid is carved into a maze.
     */
    static method New(width: nat, height: nat, startArg: Option<Pos>, endArg: Option<Pos>)
      returns (r: Result<Maze, Error>)
      ensures r.Err? <==> startArg.Some?
      ensures r.Err? ==> r.error == MissingAttribute("start")
      ensures r.Ok? ==> fresh(r.value) && r.value.Valid()
      ensures r.Ok? ==> r.value.width == width && r.value.height == height && r.value.start == Pos(1, 1)
      ensures r.Ok? ==> r.value.end == if endArg.None? then Some(Pos(width - 2, height - 2)) else None
      ensures r.Ok? ==> Generated(r.value.arr, width, height)
    {
      var m := new Maze.Blank(width, height, endArg);
      if startArg.Some? {
        return Err(MissingAttribute("start"));
      }
      m.RecursiveBacktrace();
      r := Ok(m);
    }

    /**
     * `recursive_backtrace`: pop the top cell; if some in-bounds wall lies two steps away in the
     * order down, up, right, left, push the cell back, choose one such direction, carve the cell
     * between and the target, and push the target.
     */
    method RecursiveBacktrace()
      requires Valid()
      modifies this`arr
      ensures Valid()
      ensures CarvedFrom(old(arr), arr, width, height)
      ensures IsAllWalls(old(arr)) ==> RoomsOpen(arr, width, height) && StartOpen(arr, width, height)
    {
      var w, h := width, height;
      ghost var arr0 := arr;
      var cells := arr;
      var stack := [start];
      ghost var reached := {start};
      BacktrackInit(cells, w, h);
      while stack != []
        invariant BacktrackInv(arr0, cells, w, h, stack, reached)
        decreases |Walls(cells, w, h)|, |stack|
      {
        // `stack.pop()` followed, when `valid` is nonempty, by pushing the same cell back
        var p := stack[|stack| - 1];
        var valid := WallTargets(cells, w, h, p);
        if valid != [] {
          var d :| d in valid;
          BacktrackPush(arr0, cells, w, h, stack, reached, p, d);
          cells := CarveStep(cells, w, h, p, d);
          stack := stack + [Pos(p.x + 2 * d.dx, p.y + 2 * d.dy)];
          reached := reached + {Pos(p.x + 2 * d.dx, p.y + 2 * d.dy)};
        } else {
          BacktrackPop(arr0, cells, w, h, stack, reached);
          stack := stack[..|stack| - 1];
        }
      }
      if IsAllWalls(arr0) {
        BacktrackDone(arr0, cells, w, h, reached);
      }
      arr := cells;
    }

    /**
     * `neighbors(x, y, radius, type)`: the loop over the directions right, left, down, up that
     * appends each candidate passing `desired_type`; with an unknown `type`, the first call
     * of `desired_type` raises.
     */
    method Neighbors(x: int, y: int, radius: int, kind: string) returns (r: Result<seq<Pos>, Error>)
      requires Valid()
      ensures r == Grid.Neighbors(arr, width, height, x, y, radius, kind)
    {
      var directions := [Offset(1, 0), Offset(-1, 0), Offset(0, 1), Offset(0, -1)];
      var cands := Candidates(x, y, radius);
      ghost var k := if kind == "path" then PathKind else WallKind;
      var out := [];
      for i := 0 to 4
        invariant i > 0 ==> kind == "path" || kind == "wall"
        invariant out == Kept(arr, width, height, k, cands[..i])
      {
        var n := Pos(x + directions[i].dx * radius, y + directions[i].dy * radius);
        assert n == cands[i];
        var wanted: bool;
        if kind == "path" {
          wanted := IsPath(arr, width, height, n.x, n.y);
        } else if kind == "wall" {
          wanted := IsWall(arr, width, height, n.x, n.y);
        } else {
          return Err(UnknownNeighborType(kind));
        }
        if wanted {
          out := out + [n];
        }
        assert cands[..i + 1][..i] == cands[..i];
      }
      assert cands[..4] == cands;
      KeptCandidates(arr, width, height, x, y, radius, k);
      r := Ok(out);
    }

    /**
     * `random_mouse`: from `start`, step to a randomly chosen adjacent passage until `end` is
     * reached; `random.choice` of no neighbours raises. The walk need not end, so it gets a
     * budget of `fuel` steps.
     */
    method RandomMouse(fuel: nat) returns (r: Result<seq<Pos>, Error>)
      requires Valid()
      ensures end.None? ==> r == Err(MissingAttribute("end"))
      ensures r.Ok? ==> end.Some? && Route(arr, width, height, r.value, start, end.value)
      ensures r.Ok? ==> Reachable(arr, width, height, start, end.value)
      ensures r.Err? ==> r.error == MissingAttribute("end") || r.error == IndexError || r.error == OutOfFuel
      ensures end.Some? && r.Err? ==> r.error == IndexError || r.error == OutOfFuel
      ensures r == Err(IndexError) ==>
        exists p :: Reachable(arr, width, height, start, p) && NeighborsOf(arr, width, height, p.x, p.y, 1, PathKind) == []
    {
      var path := [start];
      var budget := fuel;
      while true
        invariant path != [] && Route(arr, width, height, path, start, path[|path| - 1])
        decreases budget
      {
        var last := path[|path| - 1];
        // `path[-1] != self.end` reads the never-assigned `self.end`
        if end.None? {
          return Err(MissingAttribute("end"));
        }
        if last == end.value {
          return Ok(path);
        }
        if budget == 0 {
          return Err(OutOfFuel);
        }
        var nb := Neighbors(last.x, last.y, 1, "path");
        var options := nb.value;
        if options == [] {
          assert Reachable(arr, width, height, start, last);
          return Err(IndexError);
        }
        var n :| n in options;
        PathNeighborsAreAdjacent(arr, width, height, last);
        RouteExtend(arr, width, height, path, start, last, n);
        path := path + [n];
        budget := budget - 1;
      }
    }

    /**
     * `dfs`: a stack whose top is `stack[0]`; each round marks the top visited, stops at
     * `end`, and otherwise goes to the first unvisited adjacent passage or backs off. The
     * result is the stack: a walk from `end` back to `start`, or empty when the search
     * runs out of cells.
     */
    method Dfs() returns (r: Result<seq<Pos>, Error>, ghost iterations: nat)
      requires Valid()
      ensures r.Err? <==> end.None?
      ensures r.Err? ==> r.error == MissingAttribute("end")
      ensures r.Ok? && r.value != [] ==> BackRoute(arr, width, height, r.value, end.value, start)
      ensures r.Ok? && r.value != [] ==> Distinct(r.value)
      ensures r.Ok? ==> (r.value != [] <==> Reachable(arr, width, height, start, end.value))
      ensures iterations <= 2 * (width * height) + 1
    {
      var stack := [start];
      var visited := [];
      ghost var seen := {start};
      iterations := 0;
      if end.Some? {
        DfsInit(arr, width, height, start, end.value);
      }
      while stack != []
        invariant end.Some? ==> DfsInv(arr, width, height, start, end.value, stack, visited, seen)
        invariant end.None? ==> stack == [start]
        invariant seen <= Positions(width, height) + {start} && iterations + |stack| + 1 == 2 * |seen|
        decreases |Positions(width, height) - seen|, |stack|
      {
        iterations := iterations + 1;
        DfsIterations(width, height, start, seen, iterations, |stack| - 1);
        var top := stack[0];
        ghost var before := visited;
        visited := visited + [top];
        // `(x, y) == self.end` reads the never-assigned `self.end`
        if end.None? {
          return Err(MissingAttribute("end")), iterations;
        }
        if top == end.value {
          BackRouteReversed(arr, width, height, stack, end.value, start);
          return Ok(stack), iterations;
        }
        var nb := Neighbors(top.x, top.y, 1, "path");
        var open := Unvisited(nb.value, visited);
        if open != [] {
          DfsPush(arr, width, height, start, end.value, stack, before, seen, top);
          seen := seen + {open[0]};
          stack := [open[0]] + stack;
        } else {
          DfsPop(arr, width, height, start, end.value, stack, before, seen, top);
          stack := stack[1..];
        }
      }
      DfsDone(arr, width, height, start, end.value, visited, seen);
      DfsIterations(width, height, start, seen, iterations, 0);
      return Ok([]), iterations;
    }

    /**
     * `dijkstra`: distances from `start` over adjacent passages, with a priority queue that
     * may hold stale duplicates, then the walk back from `end` along `prev`. It succeeds
     * exactly when `end` is reachable, with a shortest walk from `end` back to `start`.
     */
    method Dijkstra() returns (r: Result<seq<Pos>, Error>)
      requires Valid()
      ensures end.None? ==> r == Err(MissingAttribute("end"))
      ensures r.Err? ==> r.error == MissingAttribute("end") || r.error == KeyError
      ensures end.Some? && r.Err? ==> r.error == KeyError
      ensures end.Some? ==> (r.Ok? <==> Reachable(arr, width, height, start, end.value))
      ensures r.Ok? ==> end.Some? && BackRoute(arr, width, height, r.value, end.value, start)
      ensures r.Ok? ==> forall p :: Route(arr, width, height, p, start, end.value) ==> |r.value| <= |p|
    {
      var w, h := width, height;
      var dist := AllNone<nat>(w, h);
      var prev := AllNone<Pos>(w, h);
      dist := dist[start := Some(0)];
      var pq := multiset{Entry(0, start)};
      ghost var floor: nat := 0;
      DijkstraInit(arr, w, h, start);
      while pq != multiset{}
        invariant DijkstraInv(arr, w, h, start, dist, prev, pq, floor, {})
        decreases |Unset(dist)|, |pq|
      {
        // `pq.get()`: an entry of least distance
        MinEntryExists(pq);
        var m :| m in pq && forall o :: o in pq ==> m.d <= o.d;
        var currentDistance, current := m.d, m.p;
        QueueEntry(dist, pq, floor, m);
        if currentDistance > dist[current].value {
          DijkstraPopStale(arr, w, h, start, dist, prev, pq, floor, m);
          pq := pq - multiset{m};
          floor := currentDistance;
          continue;
        }
        DijkstraPopCurrent(arr, w, h, start, dist, prev, pq, floor, m);
        pq := pq - multiset{m};
        floor := currentDistance;
        var nb := Neighbors(current.x, current.y, 1, "path");
        PathNeighborsAreAdjacent(arr, w, h, current);
        dist, prev, pq := Expand(arr, w, h, start, dist, prev, pq, currentDistance, current, nb.value);
      }
      // `out = [self.end]` reads the never-assigned `self.end`
      if end.None? {
        return Err(MissingAttribute("end"));
      }
      r := Trace(arr, w, h, start, end.value, dist, prev);
      DijkstraOutcome(arr, w, h, start, end.value, dist, prev, floor, r);
    }

    /**
     * `shortest_path(method)`: run the named solver, stamp its path into a copy of the grid and
     * wrap the copy in a new `Maze`, whose own throwaway generation is overwritten by the copy.
     * The wrapper's dimensions are taken in the corrected order (see `RewrapDims`).
     */
    method ShortestPath(name: string, fuel: nat) returns (r: Result<Maze, Error>)
      requires Valid()
      ensures name != "random_mouse" && name != "dfs" && name != "dijkstra" ==> r == Err(UnexpectedMethod(name))
      ensures (name == "random_mouse" || name == "dfs" || name == "dijkstra") && end.None? ==>
        r == Err(MissingAttribute("end"))
      ensures r.Ok? ==> fresh(r.value) && end.Some? && r.value.start == start && r.value.end == end
      ensures r.Ok? ==> r.value.width == width && r.value.height == height && Shaped(r.value.arr, width, height)
      ensures name == "dijkstra" && end.Some? ==> (r.Ok? <==> Reachable(arr, width, height, start, end.value))
      ensures name == "dijkstra" && r.Ok? ==>
        exists p :: BackRoute(arr, width, height, p, end.value, start) &&
                    (forall q :: Route(arr, width, height, q, start, end.value) ==> |p| <= |q|) &&
                    IsStampOf(r.value.arr, arr, width, height, p, start, end.value)
      ensures name == "dfs" && end.Some? ==> (r.Ok? <==> height > 0)
      ensures name == "dfs" && r.Ok? && !Reachable(arr, width, height, start, end.value) ==> r.value.arr == arr
      ensures name == "dfs" && r.Ok? && Reachable(arr, width, height, start, end.value) ==>
        exists p :: BackRoute(arr, width, height, p, end.value, start) && Distinct(p) &&
                    IsStampOf(r.value.arr, arr, width, height, p, start, end.value)
      ensures name == "random_mouse" && end.Some? && r.Err? ==> r.error == IndexError || r.error == OutOfFuel
      ensures name == "dfs" && end.Some? && r.Err? ==> r.error == IndexError
      ensures name == "dijkstra" && end.Some? && r.Err? ==> r.error == KeyError
      ensures name == "random_mouse" && r.Ok? ==>
        exists p :: Route(arr, width, height, p, start, end.value) && IsStampOf(r.value.arr, arr, width, height, p, start, end.value)
    {
      var path: Result<seq<Pos>, Error>;
      if name == "random_mouse" {
        path := RandomMouse(fuel);
      } else if name == "dfs" {
        ghost var iterations;
        path, iterations := Dfs();
      } else if name == "dijkstra" {
        path := Dijkstra();
      } else {
        return Err(UnexpectedMethod(name));
      }
      if path.Err? {
        return Err(path.error);
      }
      var p := path.value;
      if name == "random_mouse" {
        RouteOpen(arr, width, height, p, start, end.value);
      } else if p != [] {
        BackRouteOpen(arr, width, height, p, end.value, start);
      }
      var newArr := Stamp(arr, width, height, p, start, end.value);
      if name != "dfs" && start != end.value {
        ReachableHasRows(arr, width, height, start, end.value);
      }
      var dims := RewrapDims(newArr);
      if dims.Err? {
        return Err(dims.error);
      }
      RewrapDimsOfShaped(newArr, width, height);
      // `Maze(...)` then carves its own grid, which `m.arr = new_arr` replaces at once
      var m := new Maze.Blank(dims.value.0, dims.value.1, None);
      m.arr := newArr;
      r := Ok(m);
      if name == "dfs" && p == [] {
        StampNothing(newArr, arr, width, height, start, end.value);
      }
    }
  }

  /**
   * The stamping loop of `shortest_path`: `new_arr` starts as a copy of the grid, and every
   * position of `path`, taken in reverse, that is neither `end` nor `start` becomes "P".
   */
  method Stamp(g: Cells, w: nat, h: nat, path: seq<Pos>, a: Pos, b: Pos) returns (s: Cells)
    requires Shaped(g, w, h)
    requires forall i :: 0 <= i < |path| && path[i] != a && path[i] != b ==> InBounds(w, h, path[i].x, path[i].y)
    ensures IsStampOf(s, g, w, h, path, a, b)
  {
    s := g;
    var i := |path|;
    while i > 0
      invariant 0 <= i <= |path| && Shaped(s, w, h)
      invariant forall y, x :: 0 <= y < h && 0 <= x < w ==>
        At(s, x, y) == if Pos(x, y) in path[i..] && Pos(x, y) != a && Pos(x, y) != b then Marker else At(g, x, y)
    {
      i := i - 1;
      var q := path[i];
      assert path[i..] == [q] + path[i + 1..];
      if b != q && a != q {
        s := s[q.y := s[q.y][q.x := Marker]];
      }
    }
    assert path[0..] == path;
  }

  /** Stamping no path leaves the grid as it was. */
  lemma StampNothing(s: Cells, g: Cells, w: nat, h: nat, a: Pos, b: Pos)
    requires IsStampOf(s, g, w, h, [], a, b)
    ensures s == g
  {
    forall y | 0 <= y < h ensures s[y] == g[y] {
      forall x | 0 <= x < w ensures s[y][x] == g[y][x] {
        assert At(s, x, y) == At(g, x, y);
      }
    }
  }

  /**
   * The dimensions `shortest_path` passes to `Maze` for the stamped copy, as written:
   * `Maze(len(new_arr), len(new_arr[0]))`, which raises on a copy with no rows.
   */
  function RewrapDimsAsWritten(rows: Cells): (r: Result<(nat, nat), Error>)
    ensures r.Err? <==> rows == []
    ensures r.Err? ==> r.error == IndexError
  {
    if rows == [] then Err(IndexError) else Ok((|rows|, |rows[0]|))
  }

  /** As written, the row count becomes the width: a 3-wide, 2-high copy is wrapped as 2 wide and 3 high. */
  lemma RewrapDimsAsWrittenSwaps(g: Cells, w: nat, h: nat)
    requires Shaped(g, w, h) && h > 0 && w != h
    ensures RewrapDimsAsWritten(g).Ok? && RewrapDimsAsWritten(g).value != (w, h)
    ensures !Shaped(g, RewrapDimsAsWritten(g).value.0, RewrapDimsAsWritten(g).value.1)
  {
  }

  /** The concrete case: a 3 by 2 grid. */
  lemma RewrapDimsAsWrittenExample()
    ensures RewrapDimsAsWritten(AllWalls(3, 2)) == Ok((2, 3))
    ensures !Shaped(AllWalls(3, 2), 2, 3)
  {
    var g := AllWalls(3, 2);
    assert |g| == 2 && |g[0]| == 3;
  }

  /** The evidently intended `Maze(len(new_arr[0]), len(new_arr))`, raising on a copy with no rows as the code does. */
  function RewrapDims(rows: Cells): (r: Result<(nat, nat), Error>)
    ensures r.Err? <==> rows == []
    ensures r.Err? ==> r.error == IndexError
  {
    if rows == [] then Err(IndexError) else Ok((|rows[0]|, |rows|))
  }

  /** Corrected, the wrapper gets the copy's own width and height back. */
  lemma RewrapDimsOfShaped(g: Cells, w: nat, h: nat)
    requires Shaped(g, w, h) && h > 0
    ensures RewrapDims(g) == Ok((w, h)) && Shaped(g, RewrapDims(g).value.0, RewrapDims(g).value.1)
  {
  }
}
