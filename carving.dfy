/**
 * Facts about `recursive_backtrace`: which cells it may carve, and why, once its stack is
 * empty, every room of the lattice (both coordinates odd) other than `start` has been opened,
 * and `start` too once a room lies two steps from it.
 */
module Carving {
  import opened Grid

  function AllWalls(w: nat, h: nat): (g: Cells)
    ensures Shaped(g, w, h) && NoMarkers(g)
    ensures forall y, x :: 0 <= y < h && 0 <= x < w ==> At(g, x, y) == Wall
  {
    seq(h, _ => seq(w, _ => Wall))
  }

  predicate IsAllWalls(g: Cells) {
    forall y, x :: 0 <= y < |g| && 0 <= x < |g[y]| ==> At(g, x, y) == Wall
  }

  predicate Odd(n: int) {
    n % 2 == 1
  }

  /** A room: both coordinates odd, like `start = (1, 1)`. */
  predicate Room(p: Pos) {
    Odd(p.x) && Odd(p.y)
  }

  /** The generator's direction order: down, up, right, left. */
  const Backtrack: seq<Offset> := [Offset(0, 1), Offset(0, -1), Offset(1, 0), Offset(-1, 0)]

  /** No wall lies in the grid at distance 2 from `p`: `valid` is empty when `p` is on top. */
  predicate Finished(g: Cells, w: nat, h: nat, p: Pos)
    requires Shaped(g, w, h)
  {
    forall d :: d in Backtrack ==> !IsWall(g, w, h, p.x + 2 * d.dx, p.y + 2 * d.dy)
  }

  /**
   * A cell the generator may write 0 into: a room (a carve target), or a cell between two
   * in-bounds rooms that differ in exactly one coordinate (an intermediate cell).
   */
  predicate Carvable(w: nat, h: nat, x: int, y: int) {
    (Odd(x) && Odd(y)) || (Odd(x) && 1 <= y <= h - 2) || (Odd(y) && 1 <= x <= w - 2)
  }

  /** `g` is `g0` with some walls turned into passages, each of them carvable. */
  predicate CarvedFrom(g0: Cells, g: Cells, w: nat, h: nat) {
    Shaped(g0, w, h) && Shaped(g, w, h) &&
    forall y, x :: 0 <= y < h && 0 <= x < w ==>
      At(g, x, y) == At(g0, x, y) || (At(g0, x, y) == Wall && At(g, x, y) == Passage && Carvable(w, h, x, y))
  }

  /** Carving never undoes carving: `CarvedFrom` composes. */
  lemma CarvedFromTrans(g0: Cells, g1: Cells, g2: Cells, w: nat, h: nat)
    requires CarvedFrom(g0, g1, w, h) && CarvedFrom(g1, g2, w, h)
    ensures CarvedFrom(g0, g2, w, h)
  {
  }

  /** A finished cell stays finished: carving adds no wall. */
  lemma FinishedStays(g0: Cells, g: Cells, w: nat, h: nat, p: Pos)
    requires CarvedFrom(g0, g, w, h) && Finished(g0, w, h, p)
    ensures Finished(g, w, h, p)
  {
    forall d | d in Backtrack ensures !IsWall(g, w, h, p.x + 2 * d.dx, p.y + 2 * d.dy) {
      assert !IsWall(g0, w, h, p.x + 2 * d.dx, p.y + 2 * d.dy);
    }
  }

  /** Writing 0 into one carvable cell is a carving step that introduces no marker. */
  lemma CarveOne(g: Cells, w: nat, h: nat, x: int, y: int)
    requires Shaped(g, w, h) && NoMarkers(g) && InBounds(w, h, x, y) && Carvable(w, h, x, y)
    ensures CarvedFrom(g, Carve(g, w, h, x, y), w, h) && NoMarkers(Carve(g, w, h, x, y))
  {
    CarveAt(g, w, h, x, y);
  }

  /**
   * The geometry of one step from an in-bounds room `p` towards `d` whose target is in the
   * grid: the cell between is in the grid too, is carvable and is not a room; the target is a room.
   */
  lemma StepGeometry(w: nat, h: nat, p: Pos, d: Offset)
    requires d in Backtrack && Room(p) && InBounds(w, h, p.x, p.y)
    requires InBounds(w, h, p.x + 2 * d.dx, p.y + 2 * d.dy)
    ensures InBounds(w, h, p.x + d.dx, p.y + d.dy) && Carvable(w, h, p.x + d.dx, p.y + d.dy)
    ensures !Room(Pos(p.x + d.dx, p.y + d.dy))
    ensures Room(Pos(p.x + 2 * d.dx, p.y + 2 * d.dy)) && Carvable(w, h, p.x + 2 * d.dx, p.y + 2 * d.dy)
  {
    assert d == Offset(0, 1) || d == Offset(0, -1) || d == Offset(1, 0) || d == Offset(-1, 0);
  }

  /** Every stacked cell was reached, `start` was reached, and only rooms are ever reached. */
  ghost predicate StackReached(stack: seq<Pos>, reached: set<Pos>) {
    (forall q :: q in stack ==> q in reached) && Pos(1, 1) in reached && (forall q :: q in reached ==> Room(q))
  }

  /** Every reached cell other than `start` is an in-bounds passage. */
  ghost predicate ReachedOpen(g: Cells, w: nat, h: nat, reached: set<Pos>)
    requires Shaped(g, w, h)
  {
    forall q :: q in reached && q != Pos(1, 1) ==> InBounds(w, h, q.x, q.y) && At(g, q.x, q.y) == Passage
  }

  /** Every reached cell no longer on the stack is finished. */
  ghost predicate OffStackFinished(g: Cells, w: nat, h: nat, stack: seq<Pos>, reached: set<Pos>)
    requires Shaped(g, w, h)
  {
    forall q :: q in reached && q !in stack ==> Finished(g, w, h, q)
  }

  /** Every room not reached still holds its starting value. */
  ghost predicate UnreachedUntouched(g0: Cells, g: Cells, w: nat, h: nat, reached: set<Pos>)
    requires Shaped(g0, w, h) && Shaped(g, w, h)
  {
    forall q :: q !in reached && Room(q) && InBounds(w, h, q.x, q.y) ==> At(g, q.x, q.y) == At(g0, q.x, q.y)
  }

  /**
   * The loop invariant of `recursive_backtrace` over the grid `g` (started from `g0`), its
   * stack and the ghost set of every position ever pushed.
   */
  ghost predicate BacktrackInv(g0: Cells, g: Cells, w: nat, h: nat, stack: seq<Pos>, reached: set<Pos>) {
    Shaped(g, w, h) && NoMarkers(g) && CarvedFrom(g0, g, w, h) && StackReached(stack, reached) &&
    ReachedOpen(g, w, h, reached) && OffStackFinished(g, w, h, stack, reached) &&
    UnreachedUntouched(g0, g, w, h, reached)
  }

  lemma BacktrackInit(g: Cells, w: nat, h: nat)
    requires Shaped(g, w, h) && NoMarkers(g)
    ensures BacktrackInv(g, g, w, h, [Pos(1, 1)], {Pos(1, 1)})
  {
  }

  /** Every room other than `start = (1, 1)` is a passage. */
  predicate RoomsOpen(g: Cells, w: nat, h: nat)
    requires Shaped(g, w, h)
  {
    forall y, x :: 0 <= y < h && 0 <= x < w && Odd(x) && Odd(y) && (x, y) != (1, 1) ==>
      At(g, x, y) == Passage
  }

  /** `start` itself is a passage once it has a room at distance 2 inside the grid. */
  predicate StartOpen(g: Cells, w: nat, h: nat)
    requires Shaped(g, w, h)
  {
    ((w >= 4 && h >= 2) || (w >= 2 && h >= 4)) ==> At(g, 1, 1) == Passage
  }

  /** What generation leaves behind when it starts from an all-wall grid of `w` by `h`. */
  predicate Generated(g: Cells, w: nat, h: nat) {
    CarvedFrom(AllWalls(w, h), g, w, h) && NoMarkers(g) && RoomsOpen(g, w, h) && StartOpen(g, w, h)
  }

  /**
   * The closure argument: if `start` was reached, every reached cell is finished, and every
   * opened room was reached, then every room of the grid was reached.
   */
  lemma {:induction false} RoomsReached(g: Cells, w: nat, h: nat, reached: set<Pos>, x: int, y: int)
    requires Shaped(g, w, h) && NoMarkers(g)
    requires Pos(1, 1) in reached
    requires forall p :: p in reached ==> Finished(g, w, h, p)
    requires forall p :: p !in reached && Room(p) && InBounds(w, h, p.x, p.y) ==> At(g, p.x, p.y) == Wall
    requires Odd(x) && Odd(y) && InBounds(w, h, x, y)
    ensures Pos(x, y) in reached
    decreases x + y
  {
    if x > 1 {
      RoomsReached(g, w, h, reached, x - 2, y);
      assert Offset(1, 0) in Backtrack;
      assert !IsWall(g, w, h, x, y);
    } else if y > 1 {
      RoomsReached(g, w, h, reached, x, y - 2);
      assert Offset(0, 1) in Backtrack;
      assert !IsWall(g, w, h, x, y);
    }
  }

  /** From the closure argument: all rooms are open, `start` too when a room lies next to it. */
  lemma AllRoomsOpen(g: Cells, w: nat, h: nat, reached: set<Pos>)
    requires Shaped(g, w, h) && NoMarkers(g)
    requires Pos(1, 1) in reached
    requires forall p :: p in reached ==> Finished(g, w, h, p)
    requires forall p :: p !in reached && Room(p) && InBounds(w, h, p.x, p.y) ==> At(g, p.x, p.y) == Wall
    requires forall p :: p in reached && p != Pos(1, 1) ==> InBounds(w, h, p.x, p.y) && At(g, p.x, p.y) == Passage
    ensures RoomsOpen(g, w, h) && StartOpen(g, w, h)
  {
    forall y, x | 0 <= y < h && 0 <= x < w && Odd(x) && Odd(y) && (x, y) != (1, 1)
      ensures At(g, x, y) == Passage
    {
      RoomsReached(g, w, h, reached, x, y);
    }
    if w >= 4 && h >= 2 {
      RoomsReached(g, w, h, reached, 3, 1);
      assert Offset(-1, 0) in Backtrack;
      assert !IsWall(g, w, h, 1, 1);
    } else if w >= 2 && h >= 4 {
      RoomsReached(g, w, h, reached, 1, 3);
      assert Offset(0, -1) in Backtrack;
      assert !IsWall(g, w, h, 1, 1);
    }
  }

  /**
   * For odd dimensions of at least 5: the border is all walls, no cell with both coordinates
   * even is carved, and every room, `start` included, is a passage.
   */
  lemma OddMazeShape(g: Cells, w: nat, h: nat)
    requires Generated(g, w, h)
    requires Odd(w) && Odd(h) && w >= 5 && h >= 5
    ensures forall y, x :: 0 <= y < h && 0 <= x < w && (x == 0 || y == 0 || x == w - 1 || y == h - 1) ==>
      At(g, x, y) == Wall
    ensures forall y, x :: 0 <= y < h && 0 <= x < w && !Odd(x) && !Odd(y) ==> At(g, x, y) == Wall
    ensures forall y, x :: 0 <= y < h && 0 <= x < w && Odd(x) && Odd(y) ==> At(g, x, y) == Passage
  {
    var g0 := AllWalls(w, h);
    forall y, x | 0 <= y < h && 0 <= x < w && (x == 0 || y == 0 || x == w - 1 || y == h - 1)
      ensures At(g, x, y) == Wall
    {
      assert At(g0, x, y) == Wall;
      assert !Carvable(w, h, x, y);
    }
  }
}
