/**
 * The loop of `recursive_backtrace`, step by step: what popping a dead end and carving
 * towards a wall two cells away do to the loop invariant.
 */
module Backtracking {
  import opened Grid
  import opened Carving

  /** A dead end: the top is finished, and popping it keeps the invariant. */
  lemma BacktrackPop(g0: Cells, g: Cells, w: nat, h: nat, stack: seq<Pos>, reached: set<Pos>)
    requires BacktrackInv(g0, g, w, h, stack, reached) && stack != []
    requires WallTargets(g, w, h, stack[|stack| - 1]) == []
    ensures BacktrackInv(g0, g, w, h, stack[..|stack| - 1], reached)
  {
    var rest := stack[..|stack| - 1];
    forall q | q in stack ensures q in rest || q == stack[|stack| - 1] {
      var i :| 0 <= i < |stack| && stack[i] == q;
      if i < |stack| - 1 {
        assert rest[i] == q;
      }
    }
  }

  /** Whether the target two steps from `p` towards `d` is a wall inside the grid. */
  predicate WallTwoAway(g: Cells, w: nat, h: nat, p: Pos, d: Offset)
    requires Shaped(g, w, h)
  {
    IsWall(g, w, h, p.x + 2 * d.dx, p.y + 2 * d.dy)
  }

  /**
   * `valid`: the directions of `Backtrack`, in that order, whose target two steps away is
   * a wall inside the grid; empty exactly when `p` is finished.
   */
  function WallTargets(g: Cells, w: nat, h: nat, p: Pos): (r: seq<Offset>)
    requires Shaped(g, w, h)
    ensures forall d :: d in r <==> d in Backtrack && IsWall(g, w, h, p.x + 2 * d.dx, p.y + 2 * d.dy)
    ensures r == [] <==> Finished(g, w, h, p)
  {
    KeepIf(WallTwoAway(g, w, h, p, Offset(0, 1)), Offset(0, 1)) +
    KeepIf(WallTwoAway(g, w, h, p, Offset(0, -1)), Offset(0, -1)) +
    KeepIf(WallTwoAway(g, w, h, p, Offset(1, 0)), Offset(1, 0)) +
    KeepIf(WallTwoAway(g, w, h, p, Offset(-1, 0)), Offset(-1, 0))
  }

  /** A direction in `valid` from the top of the stack leads through and to cells inside the grid. */
  lemma PushBounds(g0: Cells, g: Cells, w: nat, h: nat, stack: seq<Pos>, reached: set<Pos>, p: Pos, d: Offset)
    requires BacktrackInv(g0, g, w, h, stack, reached) && stack != [] && p == stack[|stack| - 1]
    requires d in Backtrack && IsWall(g, w, h, p.x + 2 * d.dx, p.y + 2 * d.dy)
    ensures InBounds(w, h, p.x + d.dx, p.y + d.dy) && InBounds(w, h, p.x + 2 * d.dx, p.y + 2 * d.dy)
  {
    assert p in stack;
    if p == Pos(1, 1) {
      StartInBounds(w, h, d);
    }
    StepGeometry(w, h, p, d);
  }

  /**
   * The two writes of a carving move from `p` towards `d`: `arr[y1][x1] = 0` for the cell
   * between and `arr[y2][x2] = 0` for the target.
   */
  function CarveStep(g: Cells, w: nat, h: nat, p: Pos, d: Offset): (r: Cells)
    requires Shaped(g, w, h) && InBounds(w, h, p.x + d.dx, p.y + d.dy)
    requires InBounds(w, h, p.x + 2 * d.dx, p.y + 2 * d.dy)
    ensures Shaped(r, w, h)
  {
    Carve(Carve(g, w, h, p.x + d.dx, p.y + d.dy), w, h, p.x + 2 * d.dx, p.y + 2 * d.dy)
  }

  /**
   * A carving move from the top `p` towards `d`: the grid after both writes, with the target
   * pushed on top of `p`, keeps the invariant, and the wall set shrinks.
   */
  lemma BacktrackPush(g0: Cells, g: Cells, w: nat, h: nat, stack: seq<Pos>, reached: set<Pos>, p: Pos, d: Offset)
    requires BacktrackInv(g0, g, w, h, stack, reached) && stack != [] && p == stack[|stack| - 1]
    requires d in WallTargets(g, w, h, p)
    ensures InBounds(w, h, p.x + d.dx, p.y + d.dy) && InBounds(w, h, p.x + 2 * d.dx, p.y + 2 * d.dy)
    ensures BacktrackInv(g0, CarveStep(g, w, h, p, d), w, h, stack + [Pos(p.x + 2 * d.dx, p.y + 2 * d.dy)],
                         reached + {Pos(p.x + 2 * d.dx, p.y + 2 * d.dy)})
    ensures |Walls(CarveStep(g, w, h, p, d), w, h)| < |Walls(g, w, h)|
  {
    PushBounds(g0, g, w, h, stack, reached, p, d);
    PushKeepsInv(g0, g, w, h, stack, reached, p, d);
  }

  /** `BacktrackPush` once both written cells are known to lie inside the grid. */
  lemma PushKeepsInv(g0: Cells, g: Cells, w: nat, h: nat, stack: seq<Pos>, reached: set<Pos>, p: Pos, d: Offset)
    requires BacktrackInv(g0, g, w, h, stack, reached) && stack != [] && p == stack[|stack| - 1]
    requires d in Backtrack && IsWall(g, w, h, p.x + 2 * d.dx, p.y + 2 * d.dy)
    requires InBounds(w, h, p.x + d.dx, p.y + d.dy) && InBounds(w, h, p.x + 2 * d.dx, p.y + 2 * d.dy)
    ensures BacktrackInv(g0, CarveStep(g, w, h, p, d), w, h, stack + [Pos(p.x + 2 * d.dx, p.y + 2 * d.dy)],
                         reached + {Pos(p.x + 2 * d.dx, p.y + 2 * d.dy)})
    ensures |Walls(CarveStep(g, w, h, p, d), w, h)| < |Walls(g, w, h)|
  {
    assert p in stack;
    StepGeometry(w, h, p, d);
    var t := Pos(p.x + 2 * d.dx, p.y + 2 * d.dy);
    DoubleCarve(g, w, h, p, d);
    DoubleCarveWalls(g, w, h, p, d);
    DoubleCarveCells(g, w, h, p, d);
    var g2 := CarveStep(g, w, h, p, d);
    CarvedFromTrans(g0, g, g2, w, h);
    PushKeepsCells(g0, g, g2, w, h, reached, p, d);
    FinishedAllStay(g, g2, w, h, stack, reached, t);
    PushKeepsStack(stack, reached, t);
  }

  /** The stack part of the invariant survives pushing the room `t`. */
  lemma PushKeepsStack(stack: seq<Pos>, reached: set<Pos>, t: Pos)
    requires StackReached(stack, reached) && Room(t)
    ensures StackReached(stack + [t], reached + {t})
  {
  }

  /**
   * The two writes of a move from `p` towards `d`, to the carvable cell between and the
   * carvable target: a carving step that adds no marker.
   */
  lemma DoubleCarve(g: Cells, w: nat, h: nat, p: Pos, d: Offset)
    requires Shaped(g, w, h) && NoMarkers(g)
    requires InBounds(w, h, p.x + d.dx, p.y + d.dy) && Carvable(w, h, p.x + d.dx, p.y + d.dy)
    requires InBounds(w, h, p.x + 2 * d.dx, p.y + 2 * d.dy) && Carvable(w, h, p.x + 2 * d.dx, p.y + 2 * d.dy)
    ensures CarvedFrom(g, CarveStep(g, w, h, p, d), w, h) && NoMarkers(CarveStep(g, w, h, p, d))
  {
    var g1 := Carve(g, w, h, p.x + d.dx, p.y + d.dy);
    CarveOne(g, w, h, p.x + d.dx, p.y + d.dy);
    CarveOne(g1, w, h, p.x + 2 * d.dx, p.y + 2 * d.dy);
    CarvedFromTrans(g, g1, Carve(g1, w, h, p.x + 2 * d.dx, p.y + 2 * d.dy), w, h);
  }

  /** The two writes of a move towards a target wall remove at least that wall from the wall set. */
  lemma DoubleCarveWalls(g: Cells, w: nat, h: nat, p: Pos, d: Offset)
    requires Shaped(g, w, h) && d != Offset(0, 0)
    requires InBounds(w, h, p.x + d.dx, p.y + d.dy) && InBounds(w, h, p.x + 2 * d.dx, p.y + 2 * d.dy)
    requires At(g, p.x + 2 * d.dx, p.y + 2 * d.dy) == Wall
    ensures |Walls(CarveStep(g, w, h, p, d), w, h)| < |Walls(g, w, h)|
  {
    var g1 := Carve(g, w, h, p.x + d.dx, p.y + d.dy);
    CarveWalls(g, w, h, p.x + d.dx, p.y + d.dy);
    assert At(g1, p.x + 2 * d.dx, p.y + 2 * d.dy) == Wall;
    CarveWalls(g1, w, h, p.x + 2 * d.dx, p.y + 2 * d.dy);
  }

  /** The two writes open the target and leave every cell but the one between and the target alone. */
  lemma DoubleCarveCells(g: Cells, w: nat, h: nat, p: Pos, d: Offset)
    requires Shaped(g, w, h)
    requires InBounds(w, h, p.x + d.dx, p.y + d.dy) && InBounds(w, h, p.x + 2 * d.dx, p.y + 2 * d.dy)
    ensures At(CarveStep(g, w, h, p, d), p.x + 2 * d.dx, p.y + 2 * d.dy) == Passage
    ensures forall q: Pos :: InBounds(w, h, q.x, q.y) && q != Pos(p.x + d.dx, p.y + d.dy) && q != Pos(p.x + 2 * d.dx, p.y + 2 * d.dy) ==>
      At(CarveStep(g, w, h, p, d), q.x, q.y) == At(g, q.x, q.y)
  {
    CarveAt(g, w, h, p.x + d.dx, p.y + d.dy);
    CarveAt(Carve(g, w, h, p.x + d.dx, p.y + d.dy), w, h, p.x + 2 * d.dx, p.y + 2 * d.dy);
  }

  /** The cell facts of the invariant survive the two writes of a move from `p` towards `d`. */
  lemma PushKeepsCells(g0: Cells, g: Cells, g2: Cells, w: nat, h: nat, reached: set<Pos>, p: Pos, d: Offset)
    requires Shaped(g0, w, h) && Shaped(g, w, h) && Shaped(g2, w, h)
    requires !Room(Pos(p.x + d.dx, p.y + d.dy)) && Room(Pos(p.x + 2 * d.dx, p.y + 2 * d.dy))
    requires InBounds(w, h, p.x + 2 * d.dx, p.y + 2 * d.dy) && At(g2, p.x + 2 * d.dx, p.y + 2 * d.dy) == Passage
    requires forall q: Pos :: InBounds(w, h, q.x, q.y) && q != Pos(p.x + d.dx, p.y + d.dy) && q != Pos(p.x + 2 * d.dx, p.y + 2 * d.dy) ==>
      At(g2, q.x, q.y) == At(g, q.x, q.y)
    requires forall q :: q in reached ==> Room(q)
    requires ReachedOpen(g, w, h, reached) && UnreachedUntouched(g0, g, w, h, reached)
    ensures ReachedOpen(g2, w, h, reached + {Pos(p.x + 2 * d.dx, p.y + 2 * d.dy)})
    ensures UnreachedUntouched(g0, g2, w, h, reached + {Pos(p.x + 2 * d.dx, p.y + 2 * d.dy)})
  {
  }

  /** An empty stack from an all-wall grid: every room but `start` is open, `start` too when a room lies two steps from it. */
  lemma BacktrackDone(g0: Cells, g: Cells, w: nat, h: nat, reached: set<Pos>)
    requires BacktrackInv(g0, g, w, h, [], reached) && IsAllWalls(g0)
    ensures RoomsOpen(g, w, h) && StartOpen(g, w, h)
  {
    AllRoomsOpen(g, w, h, reached);
  }

  /** `start` has a target inside the grid only if `start` itself is inside the grid. */
  lemma StartInBounds(w: nat, h: nat, d: Offset)
    requires d in Backtrack && InBounds(w, h, 1 + 2 * d.dx, 1 + 2 * d.dy)
    ensures InBounds(w, h, 1, 1)
  {
    assert d == Offset(0, 1) || d == Offset(0, -1) || d == Offset(1, 0) || d == Offset(-1, 0);
  }

  /** Every reached cell off the stack stays finished after a move that pushes `t`. */
  lemma FinishedAllStay(g: Cells, g2: Cells, w: nat, h: nat, stack: seq<Pos>, reached: set<Pos>, t: Pos)
    requires CarvedFrom(g, g2, w, h) && OffStackFinished(g, w, h, stack, reached)
    ensures OffStackFinished(g2, w, h, stack + [t], reached + {t})
  {
    forall q | q in reached + {t} && q !in stack + [t] ensures Finished(g2, w, h, q) {
      FinishedStays(g, g2, w, h, q);
    }
  }
}
