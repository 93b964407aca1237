/**
 * The maze grid `Maze.arr`: `height` rows of `width` cells, each the integer 1 (wall),
 * the integer 0 (passage) or the string "P" (a path marker, only in stamped copies),
 * together with the bounds-checked cell tests and the neighbour query.
 */
module Grid {
  import opened Wrappers

  datatype Cell = Wall | Passage | Marker

  /** A position `(x, y)`: column `x`, row `y`; the cell is `arr[y][x]`. */
  datatype Pos = Pos(x: int, y: int)

  /** A direction `[dx, dy]`. */
  datatype Offset = Offset(dx: int, dy: int)

  type Cells = seq<seq<Cell>>

  /** `arr[y][x]`, the cell at column `x` of row `y`. */
  function At(g: Cells, x: int, y: int): Cell
    requires 0 <= y < |g| && 0 <= x < |g[y]|
  {
    g[y][x]
  }

  /** The exceptions the maze code can raise. */
  datatype Error =
    | UnknownNeighborType(kind: string)   // `neighbors` with a type other than "path"/"wall"
    | UnexpectedMethod(name: string)      // `shortest_path` with an unknown method name
    | MissingAttribute(name: string)      // `self.start` / `self.end` never assigned
    | KeyError                            // a missing key in `dijkstra`'s `prev` dict
    | IndexError                          // `random.choice([])`, `new_arr[0]` of no rows
    | OutOfFuel                           // the random walk exceeded its step budget

  /** `arr` has `h` rows of `w` cells. */
  predicate Shaped(g: Cells, w: nat, h: nat) {
    |g| == h && forall y :: 0 <= y < |g| ==> |g[y]| == w
  }

  /** No cell is a path marker: the live maze holds only 0 and 1. */
  predicate NoMarkers(g: Cells) {
    forall y, x :: 0 <= y < |g| && 0 <= x < |g[y]| ==> At(g, x, y) != Marker
  }

  predicate InBounds(w: nat, h: nat, x: int, y: int) {
    0 <= y < h && 0 <= x < w
  }

  /** `is_wall`: in bounds and equal to 1; false outside the grid. */
  function IsWall(g: Cells, w: nat, h: nat, x: int, y: int): (r: bool)
    requires Shaped(g, w, h)
    ensures !InBounds(w, h, x, y) ==> !r
  {
    InBounds(w, h, x, y) && At(g, x, y) == Wall
  }

  /** `is_path`: in bounds and equal to 0; false outside the grid. */
  function IsPath(g: Cells, w: nat, h: nat, x: int, y: int): (r: bool)
    requires Shaped(g, w, h)
    ensures !InBounds(w, h, x, y) ==> !r
  {
    InBounds(w, h, x, y) && At(g, x, y) == Passage
  }

  /** The two cell tests never both hold; on a grid without markers exactly one holds inside the grid. */
  lemma CellTestsExclusive(g: Cells, w: nat, h: nat, x: int, y: int)
    requires Shaped(g, w, h)
    ensures !(IsWall(g, w, h, x, y) && IsPath(g, w, h, x, y))
    ensures !InBounds(w, h, x, y) ==> !IsWall(g, w, h, x, y) && !IsPath(g, w, h, x, y)
    ensures NoMarkers(g) && InBounds(w, h, x, y) ==> IsWall(g, w, h, x, y) || IsPath(g, w, h, x, y)
  {
  }

  /** The set of all in-bounds positions, the keys of `dijkstra`'s `dist` and `prev` dicts. */
  function Positions(w: nat, h: nat): set<Pos> {
    set x, y | 0 <= x < w && 0 <= y < h :: Pos(x, y)
  }

  function Row(w: nat, y: int): set<Pos> {
    set x | 0 <= x < w :: Pos(x, y)
  }

  lemma {:induction false} RowSize(w: nat, y: int)
    ensures |Row(w, y)| == w
  {
    if w == 0 {
      assert Row(w, y) == {};
    } else {
      assert Row(w, y) == Row(w - 1, y) + {Pos(w - 1, y)};
      RowSize(w - 1, y);
    }
  }

  /** The positions of `h` rows are those of the first `h - 1` rows and, apart from them, the last row. */
  lemma PositionsSplit(w: nat, h: nat)
    requires h > 0
    ensures Positions(w, h) == Positions(w, h - 1) + Row(w, h - 1)
    ensures Positions(w, h - 1) * Row(w, h - 1) == {}
  {
    forall p | p in Positions(w, h) ensures p in Positions(w, h - 1) + Row(w, h - 1) {
      if p.y < h - 1 {
        assert p in Positions(w, h - 1);
      } else {
        assert p in Row(w, h - 1);
      }
    }
    forall p | p in Positions(w, h - 1) + Row(w, h - 1) ensures p in Positions(w, h) {
      if p in Row(w, h - 1) {
        assert p.y == h - 1;
      }
    }
    var last := Row(w, h - 1);
    forall p | p in last ensures p !in Positions(w, h - 1) {
      assert p.y == h - 1;
    }
  }

  /** The grid has `w * h` positions. */
  lemma {:induction false} PositionsSize(w: nat, h: nat)
    ensures |Positions(w, h)| == w * h
  {
    if h == 0 {
      assert Positions(w, h) == {};
    } else {
      PositionsSplit(w, h);
      PositionsSize(w, h - 1);
      RowSize(w, h - 1);
      assert |Positions(w, h)| == |Positions(w, h - 1)| + |Row(w, h - 1)|;
      assert w * h == w * (h - 1) + w;
    }
  }

  /** `r` is `s` with some elements left out, the others kept in their order. */
  predicate IsSubsequence<T(==)>(r: seq<T>, s: seq<T>)
    decreases |s|
  {
    if r == [] then true
    else if s == [] then false
    else (r[0] == s[0] && IsSubsequence(r[1..], s[1..])) || IsSubsequence(r, s[1..])
  }

  /** A list comprehension `[v for v in s if f(v)]`. */
  function Filter<T(==)>(s: seq<T>, f: T -> bool): (r: seq<T>)
    ensures forall v :: v in r ==> v in s && f(v)
    ensures forall v :: v in s && f(v) ==> v in r
  {
    if s == [] then []
    else if f(s[0]) then [s[0]] + Filter(s[1..], f)
    else Filter(s[1..], f)
  }

  /** `[v]` when `v` passes a comprehension's test, `[]` otherwise. */
  function KeepIf<T>(keep: bool, v: T): seq<T> {
    if keep then [v] else []
  }

  /** The two filters `neighbors` accepts. */
  datatype Kind = PathKind | WallKind

  function Matches(g: Cells, w: nat, h: nat, k: Kind, p: Pos): bool
    requires Shaped(g, w, h)
  {
    match k
    case PathKind => IsPath(g, w, h, p.x, p.y)
    case WallKind => IsWall(g, w, h, p.x, p.y)
  }

  /** The four candidates of `neighbors`, in its direction order right, left, down, up. */
  function Candidates(x: int, y: int, radius: int): seq<Pos> {
    [Pos(x + radius, y), Pos(x - radius, y), Pos(x, y + radius), Pos(x, y - radius)]
  }

  /** `neighbors(x, y, radius, type)` for a type it recognises: the matching candidates, in order. */
  function NeighborsOf(g: Cells, w: nat, h: nat, x: int, y: int, radius: int, k: Kind): (r: seq<Pos>)
    requires Shaped(g, w, h)
    ensures forall p :: p in r <==> p in Candidates(x, y, radius) && Matches(g, w, h, k, p)
  {
    KeepIf(Matches(g, w, h, k, Pos(x + radius, y)), Pos(x + radius, y)) +
    KeepIf(Matches(g, w, h, k, Pos(x - radius, y)), Pos(x - radius, y)) +
    KeepIf(Matches(g, w, h, k, Pos(x, y + radius)), Pos(x, y + radius)) +
    KeepIf(Matches(g, w, h, k, Pos(x, y - radius)), Pos(x, y - radius))
  }

  /** The matching elements of `s`, in order, as the loop of `neighbors` appends them to `out`. */
  function Kept(g: Cells, w: nat, h: nat, k: Kind, s: seq<Pos>): seq<Pos>
    requires Shaped(g, w, h)
  {
    if s == [] then [] else Kept(g, w, h, k, s[..|s| - 1]) + KeepIf(Matches(g, w, h, k, s[|s| - 1]), s[|s| - 1])
  }

  /** The loop over all four candidates builds exactly `NeighborsOf`. */
  lemma KeptCandidates(g: Cells, w: nat, h: nat, x: int, y: int, radius: int, k: Kind)
    requires Shaped(g, w, h)
    ensures Kept(g, w, h, k, Candidates(x, y, radius)) == NeighborsOf(g, w, h, x, y, radius, k)
  {
    var c := Candidates(x, y, radius);
    var c1, c2, c3 := c[..1], c[..2], c[..3];
    assert c1[..0] == [];
    assert Kept(g, w, h, k, c1) == KeepIf(Matches(g, w, h, k, c[0]), c[0]);
    assert c2[..1] == c1;
    assert Kept(g, w, h, k, c2) == Kept(g, w, h, k, c1) + KeepIf(Matches(g, w, h, k, c[1]), c[1]);
    assert c3[..2] == c2;
    assert Kept(g, w, h, k, c3) == Kept(g, w, h, k, c2) + KeepIf(Matches(g, w, h, k, c[2]), c[2]);
  }

  /** The neighbours keep the candidates' order: right, left, down, up. */
  lemma NeighborsInOrder(g: Cells, w: nat, h: nat, x: int, y: int, radius: int, k: Kind)
    requires Shaped(g, w, h)
    ensures IsSubsequence(NeighborsOf(g, w, h, x, y, radius, k), Candidates(x, y, radius))
  {
    var c := Candidates(x, y, radius);
    var k0, k1, k2, k3 := KeepIf(Matches(g, w, h, k, c[0]), c[0]), KeepIf(Matches(g, w, h, k, c[1]), c[1]),
                          KeepIf(Matches(g, w, h, k, c[2]), c[2]), KeepIf(Matches(g, w, h, k, c[3]), c[3]);
    KeepIfSubsequence(Matches(g, w, h, k, c[3]), c[3], [], []);
    assert k3 + [] == k3;
    KeepIfSubsequence(Matches(g, w, h, k, c[2]), c[2], k3, [c[3]]);
    KeepIfSubsequence(Matches(g, w, h, k, c[1]), c[1], k2 + k3, [c[2]] + [c[3]]);
    KeepIfSubsequence(Matches(g, w, h, k, c[0]), c[0], k1 + (k2 + k3), [c[1]] + ([c[2]] + [c[3]]));
    assert k0 + (k1 + (k2 + k3)) == k0 + k1 + k2 + k3;
    assert [c[0]] + ([c[1]] + ([c[2]] + [c[3]])) == c;
  }

  /** Keeping or dropping a head element preserves being a subsequence. */
  lemma KeepIfSubsequence<T>(keep: bool, v: T, r: seq<T>, s: seq<T>)
    requires IsSubsequence(r, s)
    ensures IsSubsequence(KeepIf(keep, v) + r, [v] + s)
  {
    if keep {
      assert ([v] + r)[1..] == r && ([v] + s)[1..] == s;
    } else {
      assert KeepIf(keep, v) + r == r && ([v] + s)[1..] == s;
    }
  }

  /**
   * `neighbors(x, y, radius, type)`: every candidate at distance `radius` that lies in the grid
   * and matches `type`, in the order right, left, down, up; an unknown `type` raises.
   */
  function Neighbors(g: Cells, w: nat, h: nat, x: int, y: int, radius: int, kind: string)
    : (r: Result<seq<Pos>, Error>)
    requires Shaped(g, w, h)
    ensures r.Err? <==> kind != "path" && kind != "wall"
    ensures r.Err? ==> r.error == UnknownNeighborType(kind)
    ensures r.Ok? ==> forall p :: p in r.value <==>
      p in Candidates(x, y, radius) &&
      (if kind == "path" then IsPath(g, w, h, p.x, p.y) else IsWall(g, w, h, p.x, p.y))
  {
    if kind == "path" then Ok(NeighborsOf(g, w, h, x, y, radius, PathKind))
    else if kind == "wall" then Ok(NeighborsOf(g, w, h, x, y, radius, WallKind))
    else Err(UnknownNeighborType(kind))
  }

  function Abs(n: int): nat {
    if n < 0 then -n else n
  }

  /** One solver step from `a` to `b`: `b` is an in-bounds passage at Manhattan distance 1 from `a`. */
  predicate Adjacent(g: Cells, w: nat, h: nat, a: Pos, b: Pos)
    requires Shaped(g, w, h)
  {
    Abs(a.x - b.x) + Abs(a.y - b.y) == 1 && IsPath(g, w, h, b.x, b.y)
  }

  /** The solvers' `neighbors(x, y)` (radius 1, type "path") lists exactly the adjacent passages. */
  lemma PathNeighborsAreAdjacent(g: Cells, w: nat, h: nat, a: Pos)
    requires Shaped(g, w, h)
    ensures forall b :: b in NeighborsOf(g, w, h, a.x, a.y, 1, PathKind) <==> Adjacent(g, w, h, a, b)
  {
    forall b
      ensures b in Candidates(a.x, a.y, 1) <==> Abs(a.x - b.x) + Abs(a.y - b.y) == 1
    {
    }
  }

  /** `arr[y][x] = 0`. */
  function Carve(g: Cells, w: nat, h: nat, x: int, y: int): (r: Cells)
    requires Shaped(g, w, h) && InBounds(w, h, x, y)
    ensures Shaped(r, w, h)
  {
    g[y := g[y][x := Passage]]
  }

  /** Carving sets the one cell to a passage and leaves every other cell alone. */
  lemma CarveAt(g: Cells, w: nat, h: nat, x: int, y: int)
    requires Shaped(g, w, h) && InBounds(w, h, x, y)
    ensures var r := Carve(g, w, h, x, y);
      forall b, a :: 0 <= b < h && 0 <= a < w ==> At(r, a, b) == if a == x && b == y then Passage else At(g, a, b)
  {
  }

  /** Every in-bounds position is one of the grid's positions. */
  lemma InPositions(w: nat, h: nat, x: int, y: int)
    requires InBounds(w, h, x, y)
    ensures Pos(x, y) in Positions(w, h)
  {
  }

  /** The positions of the wall cells. */
  function Walls(g: Cells, w: nat, h: nat): set<Pos>
    requires Shaped(g, w, h)
  {
    set p | p in Positions(w, h) && At(g, p.x, p.y) == Wall
  }

  /** Carving never adds a wall, and carving a wall removes it from the wall set. */
  lemma CarveWalls(g: Cells, w: nat, h: nat, x: int, y: int)
    requires Shaped(g, w, h) && InBounds(w, h, x, y)
    ensures |Walls(Carve(g, w, h, x, y), w, h)| <= |Walls(g, w, h)|
    ensures At(g, x, y) == Wall ==> |Walls(Carve(g, w, h, x, y), w, h)| < |Walls(g, w, h)|
  {
    var r := Carve(g, w, h, x, y);
    CarveAt(g, w, h, x, y);
    assert Walls(r, w, h) == Walls(g, w, h) - {Pos(x, y)};
    if At(g, x, y) == Wall {
      InPositions(w, h, x, y);
      assert Pos(x, y) in Walls(g, w, h);
    }
  }
}
