/**
 * The loop invariants of the three solvers and the lemmas that carry them through one
 * iteration: the walk of `random_mouse`, the stack and `visited` list of `dfs`, and the
 * `dist`/`prev` dicts and priority queue of `dijkstra`.
 */
module Search {
  import opened Wrappers
  import opened Grid
  import opened Routes

  /** A walk extended by one adjacent passage is still a walk. */
  lemma RouteExtend(g: Cells, w: nat, h: nat, p: seq<Pos>, a: Pos, b: Pos, c: Pos)
    requires Shaped(g, w, h) && Route(g, w, h, p, a, b) && Adjacent(g, w, h, b, c)
    ensures Route(g, w, h, p + [c], a, c)
  {
    var q := p + [c];
    forall i | 0 <= i < |q| - 1 ensures Adjacent(g, w, h, q[i], q[i + 1]) {
      if i < |p| - 1 {
        assert q[i] == p[i] && q[i + 1] == p[i + 1];
      }
    }
  }

  // ---------------------------------------------------------------- dfs

  /** `[n for n in neighbors if n not in visited]`. */
  function Unvisited(neighbors: seq<Pos>, visited: seq<Pos>): (r: seq<Pos>)
    ensures forall n :: n in r <==> n in neighbors && n !in visited
  {
    Filter(neighbors, (n: Pos) => n !in visited)
  }

  /**
   * The invariant of `dfs` at the head of its loop, with `stack[0]` the top, the `visited`
   * list, and the ghost set `seen` of everything ever visited or stacked:
   * the stack is a backward walk from its top down to `start` without repeats, every cell
   * below the top was visited, `end` was not, and every visited cell off the stack has all
   * its adjacent passages in `seen`.
   */
  ghost predicate DfsInv(g: Cells, w: nat, h: nat, a: Pos, e: Pos, stack: seq<Pos>, visited: seq<Pos>, seen: set<Pos>)
    requires Shaped(g, w, h)
  {
    Distinct(stack) &&
    (stack != [] ==> BackRoute(g, w, h, stack, stack[0], a)) &&
    (stack == [] ==> a in visited) &&
    (forall i :: 1 <= i < |stack| ==> stack[i] in visited) &&
    e !in visited &&
    (forall q :: q in visited ==> q in seen) &&
    (forall q :: q in stack ==> q in seen) &&
    (forall q :: q in seen ==> q in visited || q in stack) &&
    (forall v :: v in visited && v !in stack ==> Closed(g, w, h, seen, v))
  }

  lemma DfsInit(g: Cells, w: nat, h: nat, a: Pos, e: Pos)
    requires Shaped(g, w, h)
    ensures DfsInv(g, w, h, a, e, [a], [], {a})
  {
  }

  /** Going to the first unvisited neighbour of the top keeps the invariant and grows `seen` inside the grid. */
  lemma DfsPush(g: Cells, w: nat, h: nat, a: Pos, e: Pos, stack: seq<Pos>, visited: seq<Pos>, seen: set<Pos>, top: Pos)
    requires Shaped(g, w, h) && DfsInv(g, w, h, a, e, stack, visited, seen)
    requires stack != [] && top == stack[0] && top != e
    requires Unvisited(NeighborsOf(g, w, h, top.x, top.y, 1, PathKind), visited + [top]) != []
    ensures var n := Unvisited(NeighborsOf(g, w, h, top.x, top.y, 1, PathKind), visited + [top])[0];
      DfsInv(g, w, h, a, e, [n] + stack, visited + [top], seen + {n}) &&
      |Positions(w, h) - (seen + {n})| < |Positions(w, h) - seen| && n in Positions(w, h) &&
      |seen + {n}| == |seen| + 1
  {
    var n := Unvisited(NeighborsOf(g, w, h, top.x, top.y, 1, PathKind), visited + [top])[0];
    PathNeighborsAreAdjacent(g, w, h, top);
    assert n in NeighborsOf(g, w, h, top.x, top.y, 1, PathKind) && n !in visited + [top];
    assert Adjacent(g, w, h, top, n);
    assert n !in stack by {
      forall i | 0 <= i < |stack| ensures stack[i] != n {
        if i >= 1 {
          assert stack[i] in visited;
        }
      }
    }
    DfsPushStack(g, w, h, a, stack, n);
    DfsPushSets(g, w, h, a, e, stack, visited, seen, top, n);
    SeenGrows(w, h, seen, n);
    InPositions(w, h, n.x, n.y);
  }

  /**
   * The iteration bound of `dfs`: `seen` holds at most the grid's positions and `start`, and
   * each iteration either grows `seen` and the stack together or shrinks the stack.
   */
  lemma DfsIterations(w: nat, h: nat, a: Pos, seen: set<Pos>, steps: nat, depth: nat)
    requires seen <= Positions(w, h) + {a} && steps + depth + 1 == 2 * |seen|
    ensures steps <= 2 * (w * h) + 1
  {
    PositionsSize(w, h);
    assert |Positions(w, h) + {a}| <= w * h + 1;
    SubsetSize(seen, Positions(w, h) + {a});
  }

  lemma SubsetSize<T>(s: set<T>, t: set<T>)
    requires s <= t
    ensures |s| <= |t|
  {
    assert t == s + (t - s);
  }

  /** Adding an in-bounds position not yet seen leaves fewer unseen positions. */
  lemma SeenGrows(w: nat, h: nat, seen: set<Pos>, n: Pos)
    requires InBounds(w, h, n.x, n.y) && n !in seen
    ensures |Positions(w, h) - (seen + {n})| < |Positions(w, h) - seen|
  {
    InPositions(w, h, n.x, n.y);
    var before, after := Positions(w, h) - seen, Positions(w, h) - (seen + {n});
    assert before == after + {n} && n !in after;
  }

  /** The stack part of a push: `[n] + stack` is a backward walk without repeats. */
  lemma DfsPushStack(g: Cells, w: nat, h: nat, a: Pos, stack: seq<Pos>, n: Pos)
    requires Shaped(g, w, h) && stack != [] && Distinct(stack) && BackRoute(g, w, h, stack, stack[0], a)
    requires n !in stack && Adjacent(g, w, h, stack[0], n)
    ensures Distinct([n] + stack) && BackRoute(g, w, h, [n] + stack, n, a)
  {
    var s := [n] + stack;
    forall i | 0 <= i < |s| - 1 ensures Adjacent(g, w, h, s[i + 1], s[i]) {
      if i > 0 {
        assert s[i] == stack[i - 1] && s[i + 1] == stack[i];
      }
    }
    forall i, j | 0 <= i < j < |s| ensures s[i] != s[j] {
      if i > 0 {
        assert s[i] == stack[i - 1] && s[j] == stack[j - 1];
      } else {
        assert s[j] == stack[j - 1];
      }
    }
  }

  /** The set part of a push: the top becomes visited and `n` joins `seen`. */
  lemma DfsPushSets(g: Cells, w: nat, h: nat, a: Pos, e: Pos, stack: seq<Pos>, visited: seq<Pos>, seen: set<Pos>, top: Pos, n: Pos)
    requires Shaped(g, w, h) && DfsInv(g, w, h, a, e, stack, visited, seen)
    requires stack != [] && top == stack[0] && top != e && Distinct([n] + stack)
    ensures var s, v := [n] + stack, visited + [top];
      (forall i :: 1 <= i < |s| ==> s[i] in v) && e !in v &&
      (forall q :: q in v ==> q in seen + {n}) && (forall q :: q in s ==> q in seen + {n}) &&
      (forall q :: q in seen + {n} ==> q in v || q in s) &&
      (forall u :: u in v && u !in s ==> Closed(g, w, h, seen + {n}, u))
  {
    var s := [n] + stack;
    forall i | 1 <= i < |s| ensures s[i] in visited + [top] {
      assert s[i] == stack[i - 1];
    }
  }

  /** Backing off a top with no unvisited neighbour keeps the invariant. */
  lemma DfsPop(g: Cells, w: nat, h: nat, a: Pos, e: Pos, stack: seq<Pos>, visited: seq<Pos>, seen: set<Pos>, top: Pos)
    requires Shaped(g, w, h) && DfsInv(g, w, h, a, e, stack, visited, seen)
    requires stack != [] && top == stack[0] && top != e
    requires Unvisited(NeighborsOf(g, w, h, top.x, top.y, 1, PathKind), visited + [top]) == []
    ensures DfsInv(g, w, h, a, e, stack[1..], visited + [top], seen)
  {
    var rest := stack[1..];
    var v := visited + [top];
    PathNeighborsAreAdjacent(g, w, h, top);
    assert Closed(g, w, h, seen, top) by {
      forall b | Adjacent(g, w, h, top, b) ensures b in seen {
        assert b in NeighborsOf(g, w, h, top.x, top.y, 1, PathKind);
      }
    }
    assert top !in rest by {
      forall i | 0 <= i < |rest| ensures rest[i] != top {
        assert rest[i] == stack[i + 1];
      }
    }
    if rest == [] {
      assert top == a;
    } else {
      assert BackRoute(g, w, h, rest, rest[0], a) by {
        forall i | 0 <= i < |rest| - 1 ensures Adjacent(g, w, h, rest[i + 1], rest[i]) {
          assert rest[i] == stack[i + 1] && rest[i + 1] == stack[i + 2];
        }
      }
    }
    forall q | q in stack ensures q in rest || q == top {
      var i :| 0 <= i < |stack| && stack[i] == q;
      if i > 0 {
        assert rest[i - 1] == q;
      }
    }
  }

  /** With the stack empty, `seen` is closed, holds `start` and not `end`: no walk reaches `end`. */
  lemma DfsDone(g: Cells, w: nat, h: nat, a: Pos, e: Pos, visited: seq<Pos>, seen: set<Pos>)
    requires Shaped(g, w, h) && DfsInv(g, w, h, a, e, [], visited, seen)
    ensures !Reachable(g, w, h, a, e)
  {
    ClosedExcludesUnreachable(g, w, h, seen, a, e);
  }

  // ---------------------------------------------------------------- dijkstra

  /**
   * A dict with a `None` entry for every in-grid position: `dist` with infinity as `None`
   * (`float("inf") for x in range(width) for y in range(height)`), and `prev` before any
   * predecessor is known.
   */
  function AllNone<T>(w: nat, h: nat): (r: map<Pos, Option<T>>)
    ensures r.Keys == Positions(w, h) && forall p :: p in r ==> r[p] == None
  {
    map p | p in Positions(w, h) :: None
  }

  /** The positions whose distance is still infinite. */
  ghost function Unset(dist: map<Pos, Option<nat>>): set<Pos> {
    set v | v in dist && dist[v].None?
  }

  /** The keys of both dicts, and `dist[start] == 0`. */
  ghost predicate DistKeys(w: nat, h: nat, a: Pos, dist: map<Pos, Option<nat>>, prev: map<Pos, Option<Pos>>) {
    dist.Keys == Positions(w, h) + {a} && prev.Keys == Positions(w, h) && a in dist && dist[a] == Some(0)
  }

  /** No finite distance exceeds one more than `floor`, the distance last popped. */
  ghost predicate BelowFloor(dist: map<Pos, Option<nat>>, floor: nat) {
    forall v :: v in dist && dist[v].Some? ==> dist[v].value <= floor + 1
  }

  /** Every queued entry lies between `floor` and `floor + 1` and is no better than its position's distance. */
  ghost predicate QueueOk(dist: map<Pos, Option<nat>>, pq: multiset<Entry>, floor: nat) {
    forall e :: e in pq ==> floor <= e.d <= floor + 1 && e.p in dist && dist[e.p].Some? && dist[e.p].value <= e.d
  }

  /** Every position with a finite distance, apart from those in `skip`, is settled or still queued with that distance. */
  ghost predicate Pending(g: Cells, w: nat, h: nat, dist: map<Pos, Option<nat>>, pq: multiset<Entry>, skip: set<Pos>)
    requires Shaped(g, w, h)
  {
    forall v :: v in dist && dist[v].Some? && v !in skip ==> Settled(g, w, h, dist, v) || Entry(dist[v].value, v) in pq
  }

  /** The invariant of `dijkstra`'s loops; `skip` holds the position being expanded, if any. */
  ghost predicate DijkstraInv(g: Cells, w: nat, h: nat, a: Pos, dist: map<Pos, Option<nat>>, prev: map<Pos, Option<Pos>>,
                              pq: multiset<Entry>, floor: nat, skip: set<Pos>)
    requires Shaped(g, w, h)
  {
    DistKeys(w, h, a, dist, prev) && PredecessorsOk(g, w, h, a, dist, prev) && BelowFloor(dist, floor) &&
    QueueOk(dist, pq, floor) && Pending(g, w, h, dist, pq, skip)
  }

  lemma DijkstraInit(g: Cells, w: nat, h: nat, a: Pos)
    requires Shaped(g, w, h)
    ensures DijkstraInv(g, w, h, a, AllNone<nat>(w, h)[a := Some(0)], AllNone<Pos>(w, h),
                        multiset{Entry(0, a)}, 0, {})
  {
    var dist := AllNone<nat>(w, h)[a := Some(0)];
    assert forall v :: v in dist && dist[v].Some? ==> v == a;
  }

  /** A popped entry worse than its position's distance is a leftover duplicate: dropping it keeps the invariant. */
  lemma DijkstraPopStale(g: Cells, w: nat, h: nat, a: Pos, dist: map<Pos, Option<nat>>, prev: map<Pos, Option<Pos>>,
                         pq: multiset<Entry>, floor: nat, m: Entry)
    requires Shaped(g, w, h) && DijkstraInv(g, w, h, a, dist, prev, pq, floor, {})
    requires m in pq && (forall o :: o in pq ==> m.d <= o.d)
    requires m.p in dist && dist[m.p].Some? && m.d > dist[m.p].value
    ensures DijkstraInv(g, w, h, a, dist, prev, pq - multiset{m}, m.d, {})
  {
    FloorRises(dist, floor, m.d);
    QueuePop(dist, pq, floor, m);
    PendingDrop(g, w, h, dist, pq, m, {});
  }

  /** A popped entry equal to its position's distance: that position is the one to expand. */
  lemma DijkstraPopCurrent(g: Cells, w: nat, h: nat, a: Pos, dist: map<Pos, Option<nat>>, prev: map<Pos, Option<Pos>>,
                           pq: multiset<Entry>, floor: nat, m: Entry)
    requires Shaped(g, w, h) && DijkstraInv(g, w, h, a, dist, prev, pq, floor, {})
    requires m in pq && (forall o :: o in pq ==> m.d <= o.d)
    requires m.p in dist && dist[m.p].Some? && m.d <= dist[m.p].value
    ensures dist[m.p] == Some(m.d)
    ensures DijkstraInv(g, w, h, a, dist, prev, pq - multiset{m}, m.d, {m.p})
  {
    QueueEntry(dist, pq, floor, m);
    FloorRises(dist, floor, m.d);
    QueuePop(dist, pq, floor, m);
    PendingDrop(g, w, h, dist, pq, m, {m.p});
  }

  /** A queued entry's position has a finite distance no greater than the entry's. */
  lemma QueueEntry(dist: map<Pos, Option<nat>>, pq: multiset<Entry>, floor: nat, m: Entry)
    requires QueueOk(dist, pq, floor) && m in pq
    ensures m.p in dist && dist[m.p].Some? && dist[m.p].value <= m.d
  {
  }

  lemma FloorRises(dist: map<Pos, Option<nat>>, floor: nat, floor2: nat)
    requires BelowFloor(dist, floor) && floor <= floor2
    ensures BelowFloor(dist, floor2)
  {
  }

  /** Popping a least entry: the rest lies between its distance and one more. */
  lemma QueuePop(dist: map<Pos, Option<nat>>, pq: multiset<Entry>, floor: nat, m: Entry)
    requires QueueOk(dist, pq, floor) && m in pq && (forall o :: o in pq ==> m.d <= o.d)
    ensures QueueOk(dist, pq - multiset{m}, m.d)
  {
    forall e | e in pq - multiset{m} ensures e in pq {
    }
  }

  /** Dropping an entry that is not the current distance of its position, or whose position is skipped, keeps `Pending`. */
  lemma PendingDrop(g: Cells, w: nat, h: nat, dist: map<Pos, Option<nat>>, pq: multiset<Entry>, m: Entry, skip: set<Pos>)
    requires Shaped(g, w, h) && Pending(g, w, h, dist, pq, {})
    requires m.p in skip || m.p !in dist || dist[m.p] != Some(m.d)
    ensures Pending(g, w, h, dist, pq - multiset{m}, skip)
  {
    forall v | v in dist && dist[v].Some? && v !in skip && !Settled(g, w, h, dist, v)
      ensures Entry(dist[v].value, v) in pq - multiset{m}
    {
      assert Entry(dist[v].value, v) != m;
    }
  }

  /** Setting a still-infinite distance removes that position from `Unset`. */
  lemma UnsetShrinks(dist: map<Pos, Option<nat>>, v: Pos, k: nat)
    requires v in dist && dist[v].None?
    ensures |Unset(dist[v := Some(k)])| == |Unset(dist)| - 1
  {
    assert Unset(dist[v := Some(k)]) == Unset(dist) - {v};
    assert v in Unset(dist);
  }

  /**
   * `distance < dist[neighbor]` for an adjacent passage `nb` of the expanded `cur`: the distance
   * was infinite, and recording `cur` as its predecessor and queueing it keeps the invariant.
   */
  lemma DijkstraRelax(g: Cells, w: nat, h: nat, a: Pos, dist: map<Pos, Option<nat>>, prev: map<Pos, Option<Pos>>,
                      pq: multiset<Entry>, cd: nat, cur: Pos, nb: Pos)
    requires Shaped(g, w, h) && DijkstraInv(g, w, h, a, dist, prev, pq, cd, {cur})
    requires cur in dist && dist[cur] == Some(cd) && Adjacent(g, w, h, cur, nb) && nb in dist
    requires dist[nb].None? || cd + 1 < dist[nb].value
    ensures dist[nb].None?
    ensures nb != cur && dist[nb := Some(cd + 1)][cur] == Some(cd)
    ensures forall v :: v in dist && dist[v].Some? ==> v in dist[nb := Some(cd + 1)] && dist[nb := Some(cd + 1)][v] == dist[v]
    ensures DijkstraInv(g, w, h, a, dist[nb := Some(cd + 1)], prev[nb := Some(cur)],
                        pq + multiset{Entry(cd + 1, nb)}, cd, {cur})
  {
    assert nb != a;
    InPositions(w, h, nb.x, nb.y);
    RelaxKeys(w, h, a, dist, prev, cur, nb, cd);
    RelaxPredecessors(g, w, h, a, dist, prev, cur, nb, cd);
    RelaxQueue(dist, pq, cd, nb);
    RelaxPending(g, w, h, dist, pq, cd, cur, nb);
  }

  lemma RelaxKeys(w: nat, h: nat, a: Pos, dist: map<Pos, Option<nat>>, prev: map<Pos, Option<Pos>>, cur: Pos, nb: Pos, cd: nat)
    requires DistKeys(w, h, a, dist, prev) && nb in Positions(w, h) && nb != a
    ensures DistKeys(w, h, a, dist[nb := Some(cd + 1)], prev[nb := Some(cur)])
  {
  }

  /** The new entry lies at `floor + 1`, and no queued entry was for the still-infinite `nb`. */
  lemma RelaxQueue(dist: map<Pos, Option<nat>>, pq: multiset<Entry>, cd: nat, nb: Pos)
    requires QueueOk(dist, pq, cd) && BelowFloor(dist, cd) && nb in dist && dist[nb].None?
    ensures QueueOk(dist[nb := Some(cd + 1)], pq + multiset{Entry(cd + 1, nb)}, cd)
    ensures BelowFloor(dist[nb := Some(cd + 1)], cd)
  {
  }

  /** Every position but `cur` is still settled or queued, `nb` now queued. */
  lemma RelaxPending(g: Cells, w: nat, h: nat, dist: map<Pos, Option<nat>>, pq: multiset<Entry>, cd: nat, cur: Pos, nb: Pos)
    requires Shaped(g, w, h) && Pending(g, w, h, dist, pq, {cur}) && nb in dist && dist[nb].None?
    ensures Pending(g, w, h, dist[nb := Some(cd + 1)], pq + multiset{Entry(cd + 1, nb)}, {cur})
  {
    var dist2, pq2 := dist[nb := Some(cd + 1)], pq + multiset{Entry(cd + 1, nb)};
    forall v | v in dist2 && dist2[v].Some? && v != cur
      ensures Settled(g, w, h, dist2, v) || Entry(dist2[v].value, v) in pq2
    {
      if v != nb && Settled(g, w, h, dist, v) {
        SettledStays(g, w, h, dist, v, nb, cd + 1);
      }
    }
  }

  /** `prev` stays a predecessor map when `nb` gets distance `cd + 1` through `cur`. */
  lemma RelaxPredecessors(g: Cells, w: nat, h: nat, a: Pos, dist: map<Pos, Option<nat>>, prev: map<Pos, Option<Pos>>,
                          cur: Pos, nb: Pos, cd: nat)
    requires Shaped(g, w, h) && PredecessorsOk(g, w, h, a, dist, prev) && nb in prev
    requires cur in dist && dist[cur] == Some(cd) && Adjacent(g, w, h, cur, nb) && nb in dist && dist[nb].None? && nb != a
    ensures PredecessorsOk(g, w, h, a, dist[nb := Some(cd + 1)], prev[nb := Some(cur)])
  {
  }

  /** A settled position stays settled when an infinite distance elsewhere becomes finite. */
  lemma SettledStays(g: Cells, w: nat, h: nat, dist: map<Pos, Option<nat>>, v: Pos, nb: Pos, k: nat)
    requires Shaped(g, w, h) && v in dist && dist[v].Some? && v != nb && nb in dist && dist[nb].None?
    requires Settled(g, w, h, dist, v)
    ensures Settled(g, w, h, dist[nb := Some(k)], v)
  {
  }

  /**
   * The inner loop of `dijkstra` over the adjacent passages of the popped `cur` at distance `cd`:
   * each whose distance is worse than `cd + 1` gets that distance, `cur` as predecessor and a
   * queue entry. Afterwards `cur` is settled, and either some infinite distance became finite or
   * the queue is unchanged.
   */
  method Expand(g: Cells, w: nat, h: nat, a: Pos, dist: map<Pos, Option<nat>>, prev: map<Pos, Option<Pos>>,
                pq: multiset<Entry>, cd: nat, cur: Pos, neighbors: seq<Pos>)
    returns (dist2: map<Pos, Option<nat>>, prev2: map<Pos, Option<Pos>>, pq2: multiset<Entry>)
    requires Shaped(g, w, h) && DijkstraInv(g, w, h, a, dist, prev, pq, cd, {cur})
    requires cur in dist && dist[cur] == Some(cd)
    requires forall b :: b in neighbors <==> Adjacent(g, w, h, cur, b)
    ensures DijkstraInv(g, w, h, a, dist2, prev2, pq2, cd, {})
    ensures |Unset(dist2)| < |Unset(dist)| || (|Unset(dist2)| == |Unset(dist)| && pq2 == pq)
    ensures Relaxed(dist, prev, pq, dist2, prev2, pq2, cd, cur)
    ensures cur in dist2 && dist2[cur].Some? && Settled(g, w, h, dist2, cur)
  {
    dist2, prev2, pq2 := dist, prev, pq;
    RelaxedNothing(dist, prev, pq, cd, cur);
    for i := 0 to |neighbors|
      invariant DijkstraInv(g, w, h, a, dist2, prev2, pq2, cd, {cur})
      invariant cur in dist2 && dist2[cur] == Some(cd)
      invariant forall j :: 0 <= j < i ==> neighbors[j] in dist2 && dist2[neighbors[j]].Some?
      invariant |Unset(dist2)| < |Unset(dist)| || (|Unset(dist2)| == |Unset(dist)| && pq2 == pq)
      invariant Relaxed(dist, prev, pq, dist2, prev2, pq2, cd, cur)
    {
      var neighbor := neighbors[i];
      var distance := cd + 1;
      assert neighbor in neighbors;
      NeighborKnown(w, h, a, dist2, prev2, neighbor);
      ghost var before := dist2;
      if dist2[neighbor].None? || distance < dist2[neighbor].value {
        DijkstraRelax(g, w, h, a, dist2, prev2, pq2, cd, cur, neighbor);
        UnsetShrinks(dist2, neighbor, distance);
        RelaxedStep(dist, prev, pq, dist2, prev2, pq2, cd, cur, neighbor);
        dist2 := dist2[neighbor := Some(distance)];
        prev2 := prev2[neighbor := Some(cur)];
        pq2 := pq2 + multiset{Entry(distance, neighbor)};
      }
      FiniteExtends(before, dist2, neighbors, i);
    }
    DijkstraSettle(g, w, h, a, dist2, prev2, pq2, cd, cur);
    assert Settled(g, w, h, dist2, cur);
  }

  /**
   * What one expansion of `cur` at distance `cd` did to `dist`, `prev` and the queue: no finite
   * distance changed; every queued entry is old or is `(cd + 1, v)` for a `v` whose distance
   * went from infinite to `cd + 1`; every such `v` got `cur` as predecessor and an entry; `prev`
   * changed only where `dist` did; and the queue only grew, by one entry per distance that
   * turned finite.
   */
  ghost predicate Relaxed(dist: map<Pos, Option<nat>>, prev: map<Pos, Option<Pos>>, pq: multiset<Entry>,
                          dist2: map<Pos, Option<nat>>, prev2: map<Pos, Option<Pos>>, pq2: multiset<Entry>, cd: nat, cur: Pos) {
    (forall v :: v in dist && dist[v].Some? ==> v in dist2 && dist2[v] == dist[v]) &&
    (forall e :: e in pq2 ==> e in pq || (e.d == cd + 1 && e.p in dist && dist[e.p].None? && e.p in dist2 && dist2[e.p] == Some(cd + 1))) &&
    (forall v :: v in dist && dist[v].None? && v in dist2 && dist2[v].Some? ==>
       dist2[v] == Some(cd + 1) && Entry(cd + 1, v) in pq2 && v in prev2 && prev2[v] == Some(cur)) &&
    (forall v :: v in prev && v in dist && v in dist2 && dist2[v] == dist[v] ==> v in prev2 && prev2[v] == prev[v]) &&
    pq <= pq2 && |Unset(dist2)| <= |Unset(dist)| && |pq2| == |pq| + (|Unset(dist)| - |Unset(dist2)|)
  }

  lemma RelaxedNothing(dist: map<Pos, Option<nat>>, prev: map<Pos, Option<Pos>>, pq: multiset<Entry>, cd: nat, cur: Pos)
    ensures Relaxed(dist, prev, pq, dist, prev, pq, cd, cur)
  {
  }

  /** Relaxing a still-infinite `nb` extends what the expansion did so far. */
  lemma RelaxedStep(dist: map<Pos, Option<nat>>, prev: map<Pos, Option<Pos>>, pq: multiset<Entry>,
                    dist2: map<Pos, Option<nat>>, prev2: map<Pos, Option<Pos>>, pq2: multiset<Entry>, cd: nat, cur: Pos, nb: Pos)
    requires Relaxed(dist, prev, pq, dist2, prev2, pq2, cd, cur)
    requires nb in dist && nb in dist2 && dist2[nb].None?
    ensures Relaxed(dist, prev, pq, dist2[nb := Some(cd + 1)], prev2[nb := Some(cur)], pq2 + multiset{Entry(cd + 1, nb)}, cd, cur)
  {
    assert dist[nb].None?;
    UnsetShrinks(dist2, nb, cd + 1);
  }

  /** The neighbours before `i` keep finite distances, and the one at `i` now has one. */
  lemma FiniteExtends(dist: map<Pos, Option<nat>>, dist2: map<Pos, Option<nat>>, neighbors: seq<Pos>, i: nat)
    requires i < |neighbors| && neighbors[i] in dist2 && dist2[neighbors[i]].Some?
    requires forall j :: 0 <= j < i ==> neighbors[j] in dist && dist[neighbors[j]].Some?
    requires forall v :: v in dist && dist[v].Some? ==> v in dist2 && dist2[v] == dist[v]
    ensures forall j :: 0 <= j < i + 1 ==> neighbors[j] in dist2 && dist2[neighbors[j]].Some?
  {
  }

  /** Every in-bounds position has a `dist` entry. */
  lemma NeighborKnown(w: nat, h: nat, a: Pos, dist: map<Pos, Option<nat>>, prev: map<Pos, Option<Pos>>, nb: Pos)
    requires DistKeys(w, h, a, dist, prev) && InBounds(w, h, nb.x, nb.y)
    ensures nb in dist
  {
    InPositions(w, h, nb.x, nb.y);
  }

  /** Once every adjacent passage of `cur` has a finite distance, `cur` is settled. */
  lemma DijkstraSettle(g: Cells, w: nat, h: nat, a: Pos, dist: map<Pos, Option<nat>>, prev: map<Pos, Option<Pos>>,
                       pq: multiset<Entry>, cd: nat, cur: Pos)
    requires Shaped(g, w, h) && DijkstraInv(g, w, h, a, dist, prev, pq, cd, {cur})
    requires cur in dist && dist[cur] == Some(cd)
    requires forall b :: Adjacent(g, w, h, cur, b) ==> b in dist && dist[b].Some?
    ensures DijkstraInv(g, w, h, a, dist, prev, pq, cd, {})
  {
    assert Settled(g, w, h, dist, cur);
  }

  /**
   * With the queue empty, every finite distance is settled: `dist[b]` is finite for every `b`
   * reachable from `start`, and no longer than any walk there.
   */
  lemma DijkstraDone(g: Cells, w: nat, h: nat, a: Pos, dist: map<Pos, Option<nat>>, prev: map<Pos, Option<Pos>>,
                     floor: nat, p: seq<Pos>, b: Pos)
    requires Shaped(g, w, h) && DijkstraInv(g, w, h, a, dist, prev, multiset{}, floor, {})
    requires Route(g, w, h, p, a, b)
    ensures b in dist && dist[b].Some? && dist[b].value <= |p| - 1
  {
    SettledBoundsRoute(g, w, h, dist, p, a, b);
  }

  /** The link `prev[v]` of a position with a finite distance other than `start` exists and is strictly closer. */
  lemma StepBack(g: Cells, w: nat, h: nat, a: Pos, dist: map<Pos, Option<nat>>, prev: map<Pos, Option<Pos>>, v: Pos)
    requires Shaped(g, w, h) && PredecessorsOk(g, w, h, a, dist, prev)
    requires v in dist && dist[v].Some? && v != a
    ensures v in prev && prev[v].Some? && prev[v].value in dist && dist[prev[v].value].Some?
    ensures dist[prev[v].value].value < dist[v].value && Adjacent(g, w, h, prev[v].value, v)
  {
  }

  /**
   * The end of `dijkstra`: follow `prev` from `end` until `start`. A missing key, or a `None`
   * link (appended, then used as a key), raises `KeyError`. It succeeds exactly when `end` is
   * `start` or has a finite distance, and then yields a backward walk no longer than that distance.
   */
  method Trace(g: Cells, w: nat, h: nat, a: Pos, e: Pos, dist: map<Pos, Option<nat>>, prev: map<Pos, Option<Pos>>)
    returns (r: Result<seq<Pos>, Error>)
    requires Shaped(g, w, h) && DistKeys(w, h, a, dist, prev) && PredecessorsOk(g, w, h, a, dist, prev)
    ensures r.Ok? <==> e == a || (e in dist && dist[e].Some?)
    ensures r.Err? ==> r.error == KeyError
    ensures r.Ok? ==> BackRoute(g, w, h, r.value, e, a) && e in dist && dist[e].Some? && |r.value| <= dist[e].value + 1
  {
    var out := [e];
    var cur := e;
    while cur != a
      invariant BackRoute(g, w, h, out, e, cur)
      invariant |out| > 1 ==>
        (e != a && e in dist && dist[e].Some? && cur in dist && dist[cur].Some? &&
         |out| - 1 <= dist[e].value - dist[cur].value)
      decreases if cur in dist && dist[cur].Some? then dist[cur].value + 1 else 0
    {
      if cur !in prev || prev[cur].None? {
        return Err(KeyError);
      }
      StepBack(g, w, h, a, dist, prev, cur);
      var next := prev[cur].value;
      TraceStep(g, w, h, out, e, cur, next);
      out := out + [next];
      cur := next;
    }
    return Ok(out);
  }

  /** Appending the predecessor of the last element keeps a backward walk. */
  lemma TraceStep(g: Cells, w: nat, h: nat, out: seq<Pos>, e: Pos, cur: Pos, next: Pos)
    requires Shaped(g, w, h) && BackRoute(g, w, h, out, e, cur) && Adjacent(g, w, h, next, cur)
    ensures BackRoute(g, w, h, out + [next], e, next)
  {
    var q := out + [next];
    forall i | 0 <= i < |q| - 1 ensures Adjacent(g, w, h, q[i + 1], q[i]) {
      if i < |out| - 1 {
        assert q[i] == out[i] && q[i + 1] == out[i + 1];
      }
    }
  }

  /**
   * What the search and the trace give together: success exactly for a reachable `end`, and
   * then a backward walk no longer than any walk from `start` to `end`.
   */
  lemma DijkstraOutcome(g: Cells, w: nat, h: nat, a: Pos, e: Pos, dist: map<Pos, Option<nat>>, prev: map<Pos, Option<Pos>>,
                        floor: nat, r: Result<seq<Pos>, Error>)
    requires Shaped(g, w, h) && DijkstraInv(g, w, h, a, dist, prev, multiset{}, floor, {})
    requires r.Ok? <==> e == a || (e in dist && dist[e].Some?)
    requires r.Ok? ==> BackRoute(g, w, h, r.value, e, a) && e in dist && dist[e].Some? && |r.value| <= dist[e].value + 1
    ensures r.Ok? <==> Reachable(g, w, h, a, e)
    ensures r.Ok? ==> forall p :: Route(g, w, h, p, a, e) ==> |r.value| <= |p|
  {
    if r.Ok? {
      BackRouteReversed(g, w, h, r.value, e, a);
      forall p | Route(g, w, h, p, a, e) ensures |r.value| <= |p| {
        DijkstraDone(g, w, h, a, dist, prev, floor, p, e);
      }
    } else if p :| Route(g, w, h, p, a, e) {
      DijkstraDone(g, w, h, a, dist, prev, floor, p, e);
    }
  }
}
