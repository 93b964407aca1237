/**
 * Walks through the maze and the facts the three solvers and the path stamp rest on:
 * reachability, the closure argument behind `dfs`, the distance bound behind `dijkstra`,
 * and what stamping a path into a copy of the grid produces.
 */
module Routes {
  import opened Wrappers
  import opened Grid

  /** `p` runs from `a` to `b`, each element an adjacent passage of the one before it. */
  predicate Route(g: Cells, w: nat, h: nat, p: seq<Pos>, a: Pos, b: Pos)
    requires Shaped(g, w, h)
  {
    |p| > 0 && p[0] == a && p[|p| - 1] == b &&
    forall i :: 0 <= i < |p| - 1 ==> Adjacent(g, w, h, p[i], p[i + 1])
  }

  /** `p` runs backwards from `b` to `a`: each element is an adjacent passage of the one after it. */
  predicate BackRoute(g: Cells, w: nat, h: nat, p: seq<Pos>, b: Pos, a: Pos)
    requires Shaped(g, w, h)
  {
    |p| > 0 && p[0] == b && p[|p| - 1] == a &&
    forall i :: 0 <= i < |p| - 1 ==> Adjacent(g, w, h, p[i + 1], p[i])
  }

  ghost predicate Reachable(g: Cells, w: nat, h: nat, a: Pos, b: Pos)
    requires Shaped(g, w, h)
  {
    exists p :: Route(g, w, h, p, a, b)
  }

  function Reverse<T>(s: seq<T>): (r: seq<T>)
    ensures |r| == |s| && forall i :: 0 <= i < |s| ==> r[i] == s[|s| - 1 - i]
  {
    if s == [] then [] else Reverse(s[1..]) + [s[0]]
  }

  /** A backward route read in reverse is a route of the same length. */
  lemma BackRouteReversed(g: Cells, w: nat, h: nat, p: seq<Pos>, b: Pos, a: Pos)
    requires Shaped(g, w, h) && BackRoute(g, w, h, p, b, a)
    ensures Route(g, w, h, Reverse(p), a, b) && Reachable(g, w, h, a, b)
  {
    var q := Reverse(p);
    forall i | 0 <= i < |q| - 1 ensures Adjacent(g, w, h, q[i], q[i + 1]) {
      assert q[i] == p[|p| - 1 - i] && q[i + 1] == p[|p| - 1 - i - 1];
    }
    assert Route(g, w, h, q, a, b);
  }

  /** Every element of a route other than its start is an in-bounds passage. */
  lemma RouteOpen(g: Cells, w: nat, h: nat, p: seq<Pos>, a: Pos, b: Pos)
    requires Shaped(g, w, h) && Route(g, w, h, p, a, b)
    ensures forall i :: 0 <= i < |p| && p[i] != a ==> IsPath(g, w, h, p[i].x, p[i].y)
  {
    forall i | 0 < i < |p| ensures IsPath(g, w, h, p[i].x, p[i].y) {
      assert Adjacent(g, w, h, p[i - 1], p[i]);
    }
  }

  /** Every element of a backward route other than its last, `a`, is an in-bounds passage. */
  lemma BackRouteOpen(g: Cells, w: nat, h: nat, p: seq<Pos>, b: Pos, a: Pos)
    requires Shaped(g, w, h) && BackRoute(g, w, h, p, b, a)
    ensures forall i :: 0 <= i < |p| && p[i] != a ==> IsPath(g, w, h, p[i].x, p[i].y)
  {
    forall i | 0 <= i < |p| - 1 ensures IsPath(g, w, h, p[i].x, p[i].y) {
      assert Adjacent(g, w, h, p[i + 1], p[i]);
    }
  }

  /** A walk between two different positions passes through the grid, so the grid has a row. */
  lemma ReachableHasRows(g: Cells, w: nat, h: nat, a: Pos, b: Pos)
    requires Shaped(g, w, h) && Reachable(g, w, h, a, b) && a != b
    ensures h > 0 && w > 0
  {
    var p :| Route(g, w, h, p, a, b);
    assert Adjacent(g, w, h, p[0], p[1]);
  }

  /** The elements of `p` are pairwise distinct. */
  predicate Distinct(p: seq<Pos>) {
    forall i, j :: 0 <= i < j < |p| ==> p[i] != p[j]
  }

  /** Every adjacent passage of `v` is in `seen`. */
  ghost predicate Closed(g: Cells, w: nat, h: nat, seen: set<Pos>, v: Pos)
    requires Shaped(g, w, h)
  {
    forall b :: Adjacent(g, w, h, v, b) ==> b in seen
  }

  /** A set closed under steps that holds the first element of a walk holds all of it. */
  lemma {:induction false} ClosedHoldsRoute(g: Cells, w: nat, h: nat, seen: set<Pos>, p: seq<Pos>, a: Pos, b: Pos)
    requires Shaped(g, w, h)
    requires forall v :: v in seen ==> Closed(g, w, h, seen, v)
    requires Route(g, w, h, p, a, b) && a in seen
    ensures b in seen
    decreases |p|
  {
    if |p| > 1 {
      var q := p[..|p| - 1];
      ClosedHoldsRoute(g, w, h, seen, q, a, q[|q| - 1]);
      assert Adjacent(g, w, h, q[|q| - 1], b);
    }
  }

  /** When the search has closed everything it saw without seeing `b`, `b` is unreachable. */
  lemma ClosedExcludesUnreachable(g: Cells, w: nat, h: nat, seen: set<Pos>, a: Pos, b: Pos)
    requires Shaped(g, w, h)
    requires forall v :: v in seen ==> Closed(g, w, h, seen, v)
    requires a in seen && b !in seen
    ensures !Reachable(g, w, h, a, b)
  {
    if p :| Route(g, w, h, p, a, b) {
      ClosedHoldsRoute(g, w, h, seen, p, a, b);
    }
  }

  /** A frontier entry `(distance, position)` of `dijkstra`'s priority queue. */
  datatype Entry = Entry(d: nat, p: Pos)

  /** A nonempty frontier has an entry of least distance, so pop-min is defined. */
  lemma {:induction false} MinEntryExists(pq: multiset<Entry>)
    requires pq != multiset{}
    ensures exists m :: m in pq && forall o :: o in pq ==> m.d <= o.d
    decreases |pq|
  {
    var x :| x in pq;
    var rest := pq - multiset{x};
    assert forall o :: o in pq && o != x ==> o in rest;
    if rest == multiset{} {
      assert forall o :: o in pq ==> o == x;
    } else {
      MinEntryExists(rest);
      var m :| m in rest && forall o :: o in rest ==> m.d <= o.d;
      assert forall o :: o in pq ==> o == x || o in rest;
      if x.d <= m.d {
        assert forall o :: o in pq ==> x.d <= o.d;
      } else {
        assert m in pq && forall o :: o in pq ==> m.d <= o.d;
      }
    }
  }

  /** `dist[u]` is final in the sense that no adjacent passage of `u` is more than one step further. */
  ghost predicate Settled(g: Cells, w: nat, h: nat, dist: map<Pos, Option<nat>>, u: Pos)
    requires Shaped(g, w, h)
    requires u in dist && dist[u].Some?
  {
    forall b :: Adjacent(g, w, h, u, b) ==> b in dist && dist[b].Some? && dist[b].value <= dist[u].value + 1
  }

  /** Once every finite distance is settled, `dist[b]` is at most the length of any route from `a` to `b`. */
  lemma {:induction false} SettledBoundsRoute(g: Cells, w: nat, h: nat, dist: map<Pos, Option<nat>>,
                                              p: seq<Pos>, a: Pos, b: Pos)
    requires Shaped(g, w, h)
    requires a in dist && dist[a] == Some(0)
    requires forall u :: u in dist && dist[u].Some? ==> Settled(g, w, h, dist, u)
    requires Route(g, w, h, p, a, b)
    ensures b in dist && dist[b].Some? && dist[b].value <= |p| - 1
    decreases |p|
  {
    if |p| > 1 {
      var q := p[..|p| - 1];
      SettledBoundsRoute(g, w, h, dist, q, a, q[|q| - 1]);
      assert Adjacent(g, w, h, q[|q| - 1], b);
    }
  }

  /**
   * The `prev` dict is a proper predecessor map for `dist`: exactly the positions other than `a`
   * with a finite distance have a predecessor, which is one adjacent step back and strictly closer.
   */
  ghost predicate PredecessorsOk(g: Cells, w: nat, h: nat, a: Pos,
                                 dist: map<Pos, Option<nat>>, prev: map<Pos, Option<Pos>>)
    requires Shaped(g, w, h)
  {
    prev.Keys <= dist.Keys && dist.Keys <= prev.Keys + {a} &&
    forall v :: v in prev ==>
      (prev[v].Some? <==> v != a && dist[v].Some?) &&
      (prev[v].Some? ==>
         prev[v].value in dist && dist[prev[v].value].Some? &&
         dist[prev[v].value].value < dist[v].value &&
         Adjacent(g, w, h, prev[v].value, v))
  }

  /** `s` is `g` with every position of `path` other than `a` and `b` overwritten with "P". */
  predicate IsStampOf(s: Cells, g: Cells, w: nat, h: nat, path: seq<Pos>, a: Pos, b: Pos) {
    Shaped(s, w, h) && Shaped(g, w, h) &&
    forall y, x :: 0 <= y < h && 0 <= x < w ==>
      At(s, x, y) == if Pos(x, y) in path && Pos(x, y) != a && Pos(x, y) != b then Marker else At(g, x, y)
  }

  /** Stamping is deterministic: two stamps of the same grid and path are the same grid. */
  lemma StampUnique(s1: Cells, s2: Cells, g: Cells, w: nat, h: nat, path: seq<Pos>, a: Pos, b: Pos)
    requires IsStampOf(s1, g, w, h, path, a, b) && IsStampOf(s2, g, w, h, path, a, b)
    ensures s1 == s2
  {
    forall y | 0 <= y < h ensures s1[y] == s2[y] {
      forall x | 0 <= x < w ensures s1[y][x] == s2[y][x] {
        assert At(s1, x, y) == At(s2, x, y);
      }
    }
  }

  /** Stamping the same path into a stamped grid changes nothing. */
  lemma StampIdempotent(s1: Cells, s2: Cells, g: Cells, w: nat, h: nat, path: seq<Pos>, a: Pos, b: Pos)
    requires IsStampOf(s1, g, w, h, path, a, b) && IsStampOf(s2, s1, w, h, path, a, b)
    ensures s2 == s1
  {
    forall y | 0 <= y < h ensures s1[y] == s2[y] {
      forall x | 0 <= x < w ensures s1[y][x] == s2[y][x] {
        assert At(s1, x, y) == At(s2, x, y);
      }
    }
  }

  /** Stamping a route of passages turns passages into markers and leaves every other cell alone. */
  lemma StampOnlyMarksPassages(s: Cells, g: Cells, w: nat, h: nat, path: seq<Pos>, a: Pos, b: Pos)
    requires IsStampOf(s, g, w, h, path, a, b)
    requires forall i :: 0 <= i < |path| && path[i] != a ==> IsPath(g, w, h, path[i].x, path[i].y)
    ensures forall y, x :: 0 <= y < h && 0 <= x < w ==>
      At(s, x, y) == At(g, x, y) || (At(g, x, y) == Passage && At(s, x, y) == Marker)
    ensures InBounds(w, h, a.x, a.y) ==> At(s, a.x, a.y) == At(g, a.x, a.y)
    ensures InBounds(w, h, b.x, b.y) ==> At(s, b.x, b.y) == At(g, b.x, b.y)
  {
    forall y, x | 0 <= y < h && 0 <= x < w && Pos(x, y) in path && Pos(x, y) != a
      ensures At(g, x, y) == Passage
    {
      var i :| 0 <= i < |path| && path[i] == Pos(x, y);
    }
  }
}
