/**
 * The path search (src/djikstra/mod.rs): a best-first search over the grid
 * whose frontier is ordered by `Ord for MyCell`, the walk back along the
 * recorded parents (`get_parents`), and the marking of that walk
 * (`find_shortest`).
 *
 * The frontier, a `BinaryHeap` in the source, is a multiset here, and a pop
 * takes any maximum under `Cmp`; which of several equal maxima the heap
 * returns is not modelled.
 */
module Pathfinder {
  import opened Common
  import opened Positions
  import opened Cells
  import opened Matrices

  /**
   * `heuristic`: the larger of the absolute coordinate differences,
   * computed on `i32` casts; for coordinates below 2^31 it is the Chebyshev
   * distance, the exact cost of an obstacle-free path of king's moves.
   */
  function Heuristic(s: Position, e: Position): (h: nat)
    requires s.FitsI32() && e.FitsI32()
    ensures h == Chebyshev(s, e)
    ensures h == s.Distance(e)
  {
    Max(Abs(AsI32(s.x) - AsI32(e.x)), Abs(AsI32(s.y) - AsI32(e.y)))
  }

  // ---------------------------------------------------------------------
  // The frontier

  /** `c` is a maximum of `pq` under `Ord for MyCell`: what `BinaryHeap::pop` returns. */
  predicate IsMaximum(c: MyCell, pq: multiset<MyCell>)
  {
    forall e | e in pq :: c.Cmp(e) != Less
  }

  /** Every non-empty frontier has a maximum, so a pop always succeeds. */
  lemma {:induction false} ExistsMaximum(pq: multiset<MyCell>)
    requires pq != multiset{}
    ensures exists c :: c in pq && IsMaximum(c, pq)
    decreases |pq|
  {
    var x :| x in pq;
    var rest := pq - multiset{x};
    if rest == multiset{} {
      forall e | e in pq
        ensures x.Cmp(e) != Less
      {
        assert e in rest || e == x;
      }
      assert IsMaximum(x, pq);
    } else {
      ExistsMaximum(rest);
      var m :| m in rest && IsMaximum(m, rest);
      if m.Cmp(x) != Less {
        forall e | e in pq
          ensures m.Cmp(e) != Less
        {
          assert e in rest || e == x;
        }
        assert m in pq && IsMaximum(m, pq);
      } else {
        forall e | e in pq
          ensures x.Cmp(e) != Less
        {
          if e != x {
            assert e in rest;
            CmpAntisymmetric(m, x);
            CmpTransitive(x, m, e);
          }
        }
        assert IsMaximum(x, pq);
      }
    }
  }

  /**
   * The pop takes a cell of least combined cost, and among those one with
   * the largest distance travelled.
   */
  lemma MaximumFirst(c: MyCell, pq: multiset<MyCell>, e: MyCell)
    requires IsMaximum(c, pq) && e in pq
    ensures c.Combined() <= e.Combined()
    ensures c.Combined() == e.Combined() ==> c.distance >= e.distance
  {
  }

  // ---------------------------------------------------------------------
  // The search state

  /**
   * The cell at `(y, x)` keeps its parent link consistent: it has a parent
   * exactly when it is visited; the parent is an in-grid king's move away
   * and, unless it is the start, visited; and, unless the cell is the start,
   * its cost is at least 1 more than the parent's (than 0 for the start).
   */
  ghost predicate LinkedCell(g: Grid, start: Position, y: nat, x: nat)
    requires y < |g| && x < |g[y]|
  {
    var c := g[y][x];
    && (c.parent.Some? <==> c.IsVisited())
    && (c.parent.Some? ==>
          var p := c.parent.value;
          && InBounds(g, p) && Chebyshev(p, Position(y, x)) == 1
          && (p != start ==> g[p.y][p.x].IsVisited())
          && (Position(y, x) != start ==>
                if p == start then c.distance >= 1 else g[p.y][p.x].distance + 1 <= c.distance))
  }

  /** Every cell keeps its parent link consistent. */
  ghost predicate Linked(g: Grid, start: Position)
  {
    forall y, x | 0 <= y < |g| && 0 <= x < |g[y]| :: LinkedCell(g, start, y, x)
  }

  /** A grid `get_matrix` builds: nothing visited, no parents. */
  ghost predicate Unsearched(g: Grid)
  {
    forall y, x | 0 <= y < |g| && 0 <= x < |g[y]| :: !g[y][x].IsVisited() && g[y][x].parent == None
  }

  lemma UnsearchedIsLinked(g: Grid, start: Position)
    requires Unsearched(g)
    ensures Linked(g, start)
  {
    forall y, x | 0 <= y < |g| && 0 <= x < |g[y]|
      ensures LinkedCell(g, start, y, x)
    {
    }
  }

  /**
   * A frontier entry is the start's clone or a copy of a visited cell whose
   * grid cost is at most the copy's: costs in the grid only go down.
   */
  ghost predicate EntryOk(e: MyCell, g: Grid, start: Position)
  {
    && InBounds(g, e.position)
    && (e.position == start ||
        (g[e.position.y][e.position.x].IsVisited() && g[e.position.y][e.position.x].distance <= e.distance))
  }

  ghost predicate FrontierOk(pq: multiset<MyCell>, g: Grid, start: Position)
  {
    forall e | e in pq :: EntryOk(e, g, start)
  }

  /** `g` has the shape of `g0`. */
  ghost predicate SameShape(g: Grid, g0: Grid)
  {
    |g| == |g0| && forall y | 0 <= y < |g| :: |g[y]| == |g0[y]|
  }

  /**
   * `c` is `c0` or an improvement of it: an open cell, now visited at the
   * same position and, when it was visited already, at a lower cost.
   */
  ghost predicate Better(c: MyCell, c0: MyCell)
  {
    || c == c0
    || (!c0.IsWall() && c.IsVisited() && c.position == c0.position && (c0.IsVisited() ==> c.distance < c0.distance))
  }

  /** Every cell of `g` is its cell of `g0` or an improvement of it. */
  ghost predicate Improved(g: Grid, g0: Grid)
  {
    && SameShape(g, g0)
    && forall y, x | 0 <= y < |g| && 0 <= x < |g[y]| :: Better(g[y][x], g0[y][x])
  }

  /** Leaving a grid as it is improves it. */
  lemma ImprovedRefl(g: Grid)
    ensures Improved(g, g)
  {
    forall y, x | 0 <= y < |g| && 0 <= x < |g[y]|
      ensures Better(g[y][x], g[y][x])
    {
    }
  }

  /** Improving an improvement of `g0` improves `g0`. */
  lemma ImprovedTransitive(g: Grid, g1: Grid, g0: Grid)
    requires Improved(g, g1) && Improved(g1, g0)
    ensures Improved(g, g0)
  {
    forall y, x | 0 <= y < |g| && 0 <= x < |g[y]|
      ensures Better(g[y][x], g0[y][x])
    {
      assert |g1[y]| == |g[y]|;
      assert Better(g[y][x], g1[y][x]) && Better(g1[y][x], g0[y][x]);
    }
  }

  /**
   * An improved grid keeps every wall cell as it was, in all its fields,
   * turns no open cell into a wall, keeps every cell's position, and leaves
   * every cell it did not visit as it was.
   */
  lemma ImprovedKeeps(g: Grid, g0: Grid)
    requires Improved(g, g0)
    ensures forall y, x | 0 <= y < |g| && 0 <= x < |g[y]| ::
      && (g0[y][x].IsWall() ==> g[y][x] == g0[y][x])
      && g[y][x].IsWall() == g0[y][x].IsWall()
      && g[y][x].position == g0[y][x].position
      && (!g[y][x].IsVisited() ==> g[y][x] == g0[y][x])
  {
    forall y, x | 0 <= y < |g| && 0 <= x < |g[y]|
      ensures g[y][x].IsWall() == g0[y][x].IsWall()
    {
      assert Better(g[y][x], g0[y][x]);
      VisitedIsNotWall(g[y][x]);
    }
  }

  // ---------------------------------------------------------------------
  // Termination measure: unvisited cells, then the costs of visited cells

  function Weight(c: MyCell, byCost: bool): nat
  {
    if byCost then (if c.IsVisited() then c.distance else 0)
    else (if c.IsVisited() then 0 else 1)
  }

  function RowWeight(row: seq<MyCell>, byCost: bool): nat
  {
    if row == [] then 0 else Weight(row[0], byCost) + RowWeight(row[1..], byCost)
  }

  function GridWeight(g: Grid, byCost: bool): nat
  {
    if g == [] then 0 else RowWeight(g[0], byCost) + GridWeight(g[1..], byCost)
  }

  /** Replacing one cell of a row changes its weight by the difference of the cells' weights. */
  lemma {:induction false} RowWeightUpdate(row: seq<MyCell>, x: nat, c: MyCell, byCost: bool)
    requires x < |row|
    ensures RowWeight(row[x := c], byCost) + Weight(row[x], byCost) == RowWeight(row, byCost) + Weight(c, byCost)
  {
    if x == 0 {
      assert row[x := c][1..] == row[1..];
    } else {
      assert row[x := c][1..] == row[1..][x - 1 := c];
      RowWeightUpdate(row[1..], x - 1, c, byCost);
    }
  }

  /** Replacing one cell of a grid changes its weight by the difference of the cells' weights. */
  lemma {:induction false} GridWeightUpdate(g: Grid, p: Position, c: MyCell, byCost: bool)
    requires InBounds(g, p)
    ensures GridWeight(Updated(g, p, c), byCost) + Weight(g[p.y][p.x], byCost) == GridWeight(g, byCost) + Weight(c, byCost)
  {
    var g' := Updated(g, p, c);
    assert g' == g[p.y := g[p.y][p.x := c]];
    if p.y == 0 {
      assert g'[1..] == g[1..];
      RowWeightUpdate(g[0], p.x, c, byCost);
    } else {
      var q := Position(p.y - 1, p.x);
      assert g'[1..] == Updated(g[1..], q, c);
      GridWeightUpdate(g[1..], q, c, byCost);
    }
  }

  // ---------------------------------------------------------------------
  // One relaxation

  /**
   * The four `IndexMut` writes of a relaxation: visited, the new cost, the
   * heuristic estimate, and the parent.
   */
  function Relaxed(c0: MyCell, current: MyCell, cost: nat, h: nat): (c: MyCell)
    ensures c.IsVisited() && c.parent == Some(current.position)
    ensures c.distance == cost && c.heuristics == h
    ensures c.position == c0.position && c.walk == c0.walk
  {
    c0.SetVisited(true).SetDistance(cost).SetHeuristics(h).SetParent(current)
  }

  /** A relaxation keeps the parent links consistent. */
  lemma RelaxLinked(g: Grid, start: Position, current: MyCell, q: Position, cost: nat, h: nat)
    requires Placed(g) && Linked(g, start) && EntryOk(current, g, start)
    requires InBounds(g, q) && Chebyshev(current.position, q) == 1 && cost == current.distance + 1
    requires !g[q.y][q.x].IsVisited() || cost < g[q.y][q.x].distance
    ensures Linked(Updated(g, q, Relaxed(g[q.y][q.x], current, cost, h)), start)
  {
    var c1 := Relaxed(g[q.y][q.x], current, cost, h);
    var g' := Updated(g, q, c1);
    forall y, x | 0 <= y < |g'| && 0 <= x < |g'[y]|
      ensures LinkedCell(g', start, y, x)
    {
      assert LinkedCell(g, start, y, x);
      if Position(y, x) == q {
        ChebyshevSymmetric(current.position, q);
        assert g'[y][x] == c1;
      } else {
        var c := g[y][x];
        assert g'[y][x] == c;
        if c.parent.Some? && c.parent.value == q && Position(y, x) != start && q != start {
          assert g[q.y][q.x].IsVisited();
        }
      }
    }
  }

  /** A relaxation keeps every frontier entry, the popped cell and the new entry valid. */
  lemma RelaxFrontier(g: Grid, start: Position, pq: multiset<MyCell>, current: MyCell, q: Position, cost: nat, h: nat)
    requires Placed(g) && FrontierOk(pq, g, start) && EntryOk(current, g, start)
    requires InBounds(g, q) && Chebyshev(current.position, q) == 1 && cost == current.distance + 1
    requires !g[q.y][q.x].IsVisited() || cost < g[q.y][q.x].distance
    ensures
      var g' := Updated(g, q, Relaxed(g[q.y][q.x], current, cost, h));
      && FrontierOk(pq + multiset{g'[q.y][q.x]}, g', start)
      && EntryOk(current, g', start)
      && Placed(g')
  {
    var c1 := Relaxed(g[q.y][q.x], current, cost, h);
    var g' := Updated(g, q, c1);
    forall e | e in pq + multiset{c1}
      ensures EntryOk(e, g', start)
    {
      if e in pq {
        assert EntryOk(e, g, start);
      }
    }
    assert current.position != q;
  }

  /** A relaxation visits a new cell or lowers the cost of a visited one. */
  lemma RelaxMeasure(g: Grid, current: MyCell, q: Position, cost: nat, h: nat)
    requires InBounds(g, q)
    requires !g[q.y][q.x].IsVisited() || cost < g[q.y][q.x].distance
    ensures
      var g' := Updated(g, q, Relaxed(g[q.y][q.x], current, cost, h));
      || GridWeight(g', false) < GridWeight(g, false)
      || (GridWeight(g', false) == GridWeight(g, false) && GridWeight(g', true) < GridWeight(g, true))
  {
    var c1 := Relaxed(g[q.y][q.x], current, cost, h);
    GridWeightUpdate(g, q, c1, false);
    GridWeightUpdate(g, q, c1, true);
  }

  /**
   * A relaxation of an open cell that is unvisited or dearer improves the
   * grid: it touches no wall, and the relaxed cell is visited at the new,
   * lower cost.
   */
  lemma RelaxImproves(g: Grid, current: MyCell, q: Position, cost: nat, h: nat)
    requires InBounds(g, q) && !g[q.y][q.x].IsWall()
    requires !g[q.y][q.x].IsVisited() || cost < g[q.y][q.x].distance
    ensures Improved(Updated(g, q, Relaxed(g[q.y][q.x], current, cost, h)), g)
  {
    var g' := Updated(g, q, Relaxed(g[q.y][q.x], current, cost, h));
    forall y, x | 0 <= y < |g'| && 0 <= x < |g'[y]|
      ensures Better(g'[y][x], g[y][x])
    {
      if Position(y, x) != q {
        assert g'[y][x] == g[y][x];
      }
    }
  }

  // ---------------------------------------------------------------------
  // What one expansion computes

  /** The cost of reaching `n` through `current`: `current`'s cost plus the length of the step. */
  function Cost(current: MyCell, n: MyCell): nat
  {
    current.distance + Chebyshev(current.position, n.position)
  }

  /**
   * The test of the neighbour loop: the copy `n` is not a wall, and the grid
   * cell at its position is unvisited or reached more cheaply through
   * `current`.
   */
  ghost predicate Relaxes(g: Grid, current: MyCell, n: MyCell)
    requires InBounds(g, n.position)
  {
    var c := g[n.position.y][n.position.x];
    !n.IsWall() && (!c.IsVisited() || Cost(current, n) < c.distance)
  }

  /**
   * One pass of the neighbour loop from grid `g` and frontier `pq`: the
   * grid, the frontier and whether the goal was relaxed afterwards. A
   * relaxed cell is written with the four updates, and a copy of it is
   * pushed unless it is the goal.
   */
  ghost function RelaxOne(g: Grid, current: MyCell, n: MyCell, end: Position, pq: multiset<MyCell>)
    : (r: (Grid, multiset<MyCell>, bool))
    requires InBounds(g, n.position)
    ensures SameShape(r.0, g)
  {
    var q := n.position;
    if !Relaxes(g, current, n) then (g, pq, false)
    else
      var g' := Updated(g, q, Relaxed(g[q.y][q.x], current, Cost(current, n), Chebyshev(q, end)));
      if q == end then (g', pq, true) else (g', pq + multiset{g'[q.y][q.x]}, false)
  }

  /** Every cell of `ns` has its position inside `g`. */
  ghost predicate Inside(ns: seq<MyCell>, g: Grid)
  {
    forall i | 0 <= i < |ns| :: InBounds(g, ns[i].position)
  }

  /** What lies inside a grid lies inside any grid of its shape. */
  lemma InsideKept(ns: seq<MyCell>, g: Grid, g': Grid)
    requires Inside(ns, g) && SameShape(g', g) && ns != []
    ensures Inside(ns[1..], g')
  {
    forall i | 0 <= i < |ns[1..]|
      ensures InBounds(g', ns[1..][i].position)
    {
      assert ns[1..][i] == ns[i + 1];
    }
  }

  /** What lies inside a grid lies inside any grid of its shape, also from the `k`th cell on. */
  lemma InsideFrom(ns: seq<MyCell>, g: Grid, g': Grid, k: nat)
    requires Inside(ns, g) && SameShape(g', g) && k <= |ns|
    ensures Inside(ns[k..], g')
  {
    forall i | 0 <= i < |ns[k..]|
      ensures InBounds(g', ns[k..][i].position)
    {
      assert ns[k..][i] == ns[k + i];
    }
  }

  /** Every neighbour copy of `ns` is of a cell of `g`, with the wall flag of that cell. */
  ghost predicate CopiesOf(ns: seq<MyCell>, g: Grid)
  {
    && Inside(ns, g)
    && forall i | 0 <= i < |ns| :: ns[i].IsWall() == g[ns[i].position.y][ns[i].position.x].IsWall()
  }

  /**
   * The whole neighbour loop over `ns`, in order, leaving it at the first
   * pass that relaxes the goal (`break 'outer`).
   */
  ghost function RelaxAll(g: Grid, current: MyCell, ns: seq<MyCell>, end: Position, pq: multiset<MyCell>)
    : (r: (Grid, multiset<MyCell>, bool))
    requires Inside(ns, g)
    ensures SameShape(r.0, g)
    decreases |ns|
  {
    if ns == [] then (g, pq, false)
    else
      var r1 := RelaxOne(g, current, ns[0], end, pq);
      if r1.2 then r1
      else
        InsideKept(ns, g, r1.0);
        RelaxAll(r1.0, current, ns[1..], end, r1.1)
  }

  /** The loop from the `k`th copy on is its `k`th pass followed by the loop from the next copy on. */
  lemma RelaxAllStep(g: Grid, current: MyCell, ns: seq<MyCell>, k: nat, end: Position, pq: multiset<MyCell>)
    requires k < |ns| && Inside(ns[k..], g)
    ensures var r1 := RelaxOne(g, current, ns[k], end, pq);
      && Inside(ns[k + 1..], r1.0)
      && RelaxAll(g, current, ns[k..], end, pq) ==
           if r1.2 then r1 else RelaxAll(r1.0, current, ns[k + 1..], end, r1.1)
  {
    assert ns[k..][0] == ns[k] && ns[k..][1..] == ns[k + 1..];
    var r1 := RelaxOne(g, current, ns[k], end, pq);
    InsideKept(ns[k..], g, r1.0);
  }

  /** Every cell of `g` that differs from `g0` has a copy in `pq`. */
  ghost predicate Pushed(g: Grid, g0: Grid, pq: multiset<MyCell>)
    requires SameShape(g, g0)
  {
    forall y, x | 0 <= y < |g| && 0 <= x < |g[y]| && g[y][x] != g0[y][x] :: g[y][x] in pq
  }

  /**
   * One pass improves the grid, only adds to the frontier, pushes every cell
   * it changes unless it relaxed the goal, reports the goal only when the
   * goal is now visited, and leaves an open neighbour visited at a cost at
   * most that of the step through `current`.
   */
  lemma RelaxOneImproves(g: Grid, current: MyCell, n: MyCell, end: Position, pq: multiset<MyCell>)
    requires InBounds(g, n.position) && InBounds(g, end)
    requires n.IsWall() == g[n.position.y][n.position.x].IsWall()
    ensures var r := RelaxOne(g, current, n, end, pq); var q := n.position;
      && Improved(r.0, g) && pq <= r.1
      && (r.2 <==> Relaxes(g, current, n) && q == end)
      && (r.2 ==> r.0[end.y][end.x].IsVisited())
      && (!r.2 ==> Pushed(r.0, g, r.1))
      && (!n.IsWall() ==> r.0[q.y][q.x].IsVisited() && r.0[q.y][q.x].distance <= Cost(current, n))
  {
    var q := n.position;
    if Relaxes(g, current, n) {
      RelaxImproves(g, current, q, Cost(current, n), Chebyshev(q, end));
    } else {
      forall y, x | 0 <= y < |g| && 0 <= x < |g[y]|
        ensures Better(g[y][x], g[y][x])
      {
      }
    }
  }

  /** Pushing what changed from `g1` on top of what changed from `g0` pushes what changed from `g0`. */
  lemma PushedTransitive(g: Grid, g1: Grid, g0: Grid, pq1: multiset<MyCell>, pq: multiset<MyCell>)
    requires SameShape(g, g1) && SameShape(g1, g0)
    requires Pushed(g1, g0, pq1) && Pushed(g, g1, pq) && pq1 <= pq
    ensures SameShape(g, g0) && Pushed(g, g0, pq)
  {
    forall y, x | 0 <= y < |g| && 0 <= x < |g[y]| && g[y][x] != g0[y][x]
      ensures g[y][x] in pq
    {
      assert |g1[y]| == |g[y]|;
      if g[y][x] == g1[y][x] {
        assert g1[y][x] in pq1;
      }
    }
  }

  /**
   * The neighbour loop improves the grid, only adds to the frontier, pushes
   * every cell it changes unless it relaxed the goal, and reports the goal
   * only when the goal is now visited.
   */
  lemma {:induction false} RelaxAllImproves(g: Grid, current: MyCell, ns: seq<MyCell>, end: Position, pq: multiset<MyCell>)
    requires CopiesOf(ns, g) && InBounds(g, end)
    ensures var r := RelaxAll(g, current, ns, end, pq);
      && Improved(r.0, g) && pq <= r.1
      && (r.2 ==> r.0[end.y][end.x].IsVisited())
      && (!r.2 ==> Pushed(r.0, g, r.1))
    decreases |ns|
  {
    if ns == [] {
      forall y, x | 0 <= y < |g| && 0 <= x < |g[y]|
        ensures Better(g[y][x], g[y][x])
      {
      }
    } else {
      var r1 := RelaxOne(g, current, ns[0], end, pq);
      RelaxOneImproves(g, current, ns[0], end, pq);
      if !r1.2 {
        CopiesKept(ns, g, r1.0);
        RelaxAllImproves(r1.0, current, ns[1..], end, r1.1);
        var r := RelaxAll(r1.0, current, ns[1..], end, r1.1);
        ImprovedTransitive(r.0, r1.0, g);
        if !r.2 {
          PushedTransitive(r.0, r1.0, g, r1.1, r.1);
        }
      }
    }
  }

  /** The copies of `ns` still match the walls of an improved grid, first one dropped. */
  lemma CopiesKept(ns: seq<MyCell>, g: Grid, g': Grid)
    requires CopiesOf(ns, g) && Improved(g', g) && ns != []
    ensures CopiesOf(ns[1..], g')
  {
    ImprovedKeeps(g', g);
    forall i | 0 <= i < |ns[1..]|
      ensures InBounds(g', ns[1..][i].position)
    {
      assert ns[1..][i] == ns[i + 1];
    }
  }

  /** Every open cell of `ns` is visited in `g` at a cost at most that of the step to it from `current`. */
  ghost predicate Reached(g: Grid, current: MyCell, ns: seq<MyCell>)
  {
    forall i | 0 <= i < |ns| && !ns[i].IsWall() ::
      var q := ns[i].position;
      InBounds(g, q) && g[q.y][q.x].IsVisited() && g[q.y][q.x].distance <= Cost(current, ns[i])
  }

  /** A visited cell stays visited, at a cost no higher, in an improved grid. */
  lemma StillVisited(g: Grid, g0: Grid, q: Position, bound: nat)
    requires Improved(g, g0) && InBounds(g0, q)
    requires g0[q.y][q.x].IsVisited() && g0[q.y][q.x].distance <= bound
    ensures InBounds(g, q) && g[q.y][q.x].IsVisited() && g[q.y][q.x].distance <= bound
  {
    assert Better(g[q.y][q.x], g0[q.y][q.x]);
  }

  /** `Reached` for the first cell and for the rest gives `Reached` for all. */
  lemma ReachedCons(g: Grid, current: MyCell, ns: seq<MyCell>)
    requires ns != [] && Reached(g, current, ns[1..])
    requires !ns[0].IsWall() ==>
      var q := ns[0].position;
      InBounds(g, q) && g[q.y][q.x].IsVisited() && g[q.y][q.x].distance <= Cost(current, ns[0])
    ensures Reached(g, current, ns)
  {
    forall i | 1 <= i < |ns|
      ensures ns[i] == ns[1..][i - 1]
    {
    }
  }

  /**
   * Unless the loop relaxed the goal, it leaves every open neighbour of `ns`
   * visited at a cost at most that of the step through `current`.
   */
  lemma {:induction false} RelaxAllReaches(g: Grid, current: MyCell, ns: seq<MyCell>, end: Position, pq: multiset<MyCell>)
    requires CopiesOf(ns, g) && InBounds(g, end)
    ensures var r := RelaxAll(g, current, ns, end, pq);
      !r.2 ==> Reached(r.0, current, ns)
    decreases |ns|
  {
    if ns != [] {
      var r1 := RelaxOne(g, current, ns[0], end, pq);
      RelaxOneImproves(g, current, ns[0], end, pq);
      if !r1.2 {
        CopiesKept(ns, g, r1.0);
        RelaxAllReaches(r1.0, current, ns[1..], end, r1.1);
        RelaxAllImproves(r1.0, current, ns[1..], end, r1.1);
        var r := RelaxAll(r1.0, current, ns[1..], end, r1.1);
        if !r.2 {
          if !ns[0].IsWall() {
            StillVisited(r.0, r1.0, ns[0].position, Cost(current, ns[0]));
          }
          ReachedCons(r.0, current, ns);
        }
      }
    }
  }

  // ---------------------------------------------------------------------
  // What a finished search leaves behind

  /**
   * Every open listed neighbour of `p` is visited at a cost at most one
   * more than `d`: what expanding a cell of cost `d` at `p` leaves behind.
   */
  ghost predicate Closed(g: Grid, p: Position, d: nat, ySize: nat, xSize: nat)
  {
    forall q | Listed(p, q, ySize, xSize) && InBounds(g, q) && !g[q.y][q.x].IsWall() ::
      g[q.y][q.x].IsVisited() && g[q.y][q.x].distance <= d + 1
  }

  /** Improving the grid keeps a cell closed. */
  lemma ClosedKept(g: Grid, g0: Grid, p: Position, d: nat, ySize: nat, xSize: nat)
    requires Improved(g, g0) && Closed(g0, p, d, ySize, xSize)
    ensures Closed(g, p, d, ySize, xSize)
  {
    ImprovedKeeps(g, g0);
    forall q | Listed(p, q, ySize, xSize) && InBounds(g, q) && !g[q.y][q.x].IsWall()
      ensures g[q.y][q.x].IsVisited() && g[q.y][q.x].distance <= d + 1
    {
      assert Better(g[q.y][q.x], g0[q.y][q.x]);
    }
  }

  /** Every cell of `g` that differs from `g0` is waiting in `pq` or closed at its cost. */
  ghost predicate Settled(g: Grid, g0: Grid, pq: multiset<MyCell>, ySize: nat, xSize: nat)
    requires SameShape(g, g0)
  {
    forall y, x | 0 <= y < |g| && 0 <= x < |g[y]| && g[y][x] != g0[y][x] ::
      g[y][x] in pq || Closed(g, Position(y, x), g[y][x].distance, ySize, xSize)
  }

  /** Every cell of `g` that differs from `g0` is closed at its cost. */
  ghost predicate AllClosed(g: Grid, g0: Grid, ySize: nat, xSize: nat)
    requires SameShape(g, g0)
  {
    forall y, x | 0 <= y < |g| && 0 <= x < |g[y]| && g[y][x] != g0[y][x] ::
      Closed(g, Position(y, x), g[y][x].distance, ySize, xSize)
  }

  /** The copies `get_neighbours` returns are of listed cells, carrying their positions and wall flags. */
  lemma NeighbourCopies(g: Grid, p: Position, ns: seq<MyCell>, ySize: nat, xSize: nat)
    requires IsGrid(g, ySize, xSize) && Placed(g) && p.y < ySize && p.x < xSize
    requires ns == CellsAt(g, Neighbours(p, ySize, xSize))
    ensures CopiesOf(ns, g)
    ensures forall i | 0 <= i < |ns| :: Listed(p, ns[i].position, ySize, xSize)
  {
    var ps := Neighbours(p, ySize, xSize);
    NeighbourCells(g, p, ySize, xSize);
    forall i | 0 <= i < |ns|
      ensures ns[i].position == ps[i]
    {
      assert ns[i] == g[ps[i].y][ps[i].x];
    }
  }

  /**
   * Expanding `current` without reaching the goal closes it: each open
   * listed neighbour is a copy `ns[i]` the loop went over, one step away.
   */
  lemma ExpandCloses(g1: Grid, g: Grid, current: MyCell, ns: seq<MyCell>, ySize: nat, xSize: nat)
    requires IsGrid(g1, ySize, xSize) && Placed(g1) && Improved(g, g1)
    requires current.position.y < ySize && current.position.x < xSize
    requires ns == CellsAt(g1, Neighbours(current.position, ySize, xSize))
    requires Reached(g, current, ns)
    ensures Closed(g, current.position, current.distance, ySize, xSize)
  {
    var ps := Neighbours(current.position, ySize, xSize);
    NeighbourCells(g1, current.position, ySize, xSize);
    ImprovedKeeps(g, g1);
    forall q | Listed(current.position, q, ySize, xSize) && InBounds(g, q) && !g[q.y][q.x].IsWall()
      ensures g[q.y][q.x].IsVisited() && g[q.y][q.x].distance <= current.distance + 1
    {
      var i :| 0 <= i < |ps| && ps[i] == q;
      assert ns[i] == g1[q.y][q.x] && ns[i].position == q;
    }
  }

  /**
   * One round of the search loop keeps the start closed or waiting and
   * every changed cell waiting or closed: `current` was taken from `pq` and
   * expanded into `g2` and `pq2` without reaching the goal.
   */
  lemma SearchStep(g0: Grid, g1: Grid, g2: Grid, pq: multiset<MyCell>, current: MyCell, pq2: multiset<MyCell>,
                   s: MyCell, ySize: nat, xSize: nat)
    requires IsGrid(g1, ySize, xSize) && Placed(g1) && Improved(g1, g0) && Improved(g2, g1)
    requires current in pq && pq - multiset{current} <= pq2 && Pushed(g2, g1, pq2)
    requires Closed(g2, current.position, current.distance, ySize, xSize)
    requires Closed(g1, s.position, s.distance, ySize, xSize) || s in pq
    requires Settled(g1, g0, pq, ySize, xSize)
    ensures SameShape(g2, g0)
    ensures Closed(g2, s.position, s.distance, ySize, xSize) || s in pq2
    ensures Settled(g2, g0, pq2, ySize, xSize)
  {
    ImprovedTransitive(g2, g1, g0);
    if Closed(g1, s.position, s.distance, ySize, xSize) {
      ClosedKept(g2, g1, s.position, s.distance, ySize, xSize);
    } else if s != current {
      assert s in pq - multiset{current};
    }
    forall y, x | 0 <= y < |g2| && 0 <= x < |g2[y]| && g2[y][x] != g0[y][x]
      ensures g2[y][x] in pq2 || Closed(g2, Position(y, x), g2[y][x].distance, ySize, xSize)
    {
      var c := g1[y][x];
      if g2[y][x] == c {
        if Closed(g1, Position(y, x), c.distance, ySize, xSize) {
          ClosedKept(g2, g1, Position(y, x), c.distance, ySize, xSize);
        } else if c != current {
          assert c in pq - multiset{current};
        }
      }
    }
  }

  /**
   * A walk of at least one listed move from `from` to `to` that enters only
   * open cells of `g`.
   */
  ghost predicate OpenWalk(g: Grid, ws: seq<Position>, from: Position, to: Position, ySize: nat, xSize: nat)
  {
    && |ws| >= 2 && ws[0] == from && ws[|ws| - 1] == to
    && forall i | 1 <= i < |ws| ::
      Listed(ws[i - 1], ws[i], ySize, xSize) && InBounds(g, ws[i]) && !g[ws[i].y][ws[i].x].IsWall()
  }

  /** Along an open walk from the start, a closed search has visited every cell entered. */
  lemma {:induction false} WalkVisited(g: Grid, g0: Grid, ws: seq<Position>, start: Position, to: Position,
                                       k: nat, ySize: nat, xSize: nat)
    requires Unsearched(g0) && Improved(g, g0)
    requires Closed(g, start, 0, ySize, xSize) && AllClosed(g, g0, ySize, xSize)
    requires OpenWalk(g0, ws, start, to, ySize, xSize) && 1 <= k < |ws|
    ensures InBounds(g, ws[k]) && g[ws[k].y][ws[k].x].IsVisited()
  {
    ImprovedKeeps(g, g0);
    var q := ws[k];
    assert Listed(ws[k - 1], q, ySize, xSize) && InBounds(g0, q) && !g0[q.y][q.x].IsWall();
    if k > 1 {
      WalkVisited(g, g0, ws, start, to, k - 1, ySize, xSize);
      var p := ws[k - 1];
      assert g[p.y][p.x] != g0[p.y][p.x];
      assert Closed(g, Position(p.y, p.x), g[p.y][p.x].distance, ySize, xSize);
    }
  }

  /**
   * When a search from `start` over a grid `get_matrix` built leaves the goal
   * unvisited and every cell closed, no open walk leads from the start to
   * the goal: the search gives up only on an unreachable goal.
   */
  lemma GoalUnreachable(g: Grid, g0: Grid, ws: seq<Position>, start: Position, end: Position, ySize: nat, xSize: nat)
    requires Unsearched(g0) && Improved(g, g0)
    requires Closed(g, start, 0, ySize, xSize) && AllClosed(g, g0, ySize, xSize)
    requires InBounds(g, end) && !g[end.y][end.x].IsVisited()
    ensures !OpenWalk(g0, ws, start, end, ySize, xSize)
  {
    if OpenWalk(g0, ws, start, end, ySize, xSize) {
      WalkVisited(g, g0, ws, start, end, |ws| - 1, ySize, xSize);
    }
  }

  // ---------------------------------------------------------------------
  // What the recorded costs and parents mean

  /** A visited cell's recorded cost is at least its Chebyshev distance from the start. */
  lemma {:induction false} CostAtLeastDistance(g: Grid, start: Position, q: Position)
    requires Linked(g, start) && InBounds(g, q) && g[q.y][q.x].IsVisited() && q != start
    ensures g[q.y][q.x].distance >= Chebyshev(start, q)
    decreases g[q.y][q.x].distance
  {
    assert LinkedCell(g, start, q.y, q.x);
    var p := g[q.y][q.x].parent.value;
    if p != start {
      CostAtLeastDistance(g, start, p);
      ChebyshevTriangle(start, p, q);
    }
  }

  /** Where `get_parents` starts: the goal's parent, or `(0, 0)` when it has none. */
  function From(g: Grid, end: Position): (p: Position)
    requires InBounds(g, end)
    ensures g[end.y][end.x].parent.Some? ==> p == g[end.y][end.x].parent.value
  {
    match g[end.y][end.x].parent
    case Some(p) => p
    case None => Position(0, 0)
  }

  /**
   * `ps` are the grid cells met following parents from `from` until `to`:
   * none is the start, each is visited, and each one's parent is the next
   * one's position, the last one's being `to`.
   */
  ghost predicate ChainTo(g: Grid, ps: seq<MyCell>, from: Position, to: Position, start: Position)
  {
    && (ps == [] ==> from == to)
    && (ps != [] ==> ps[0].position == from)
    && forall i | 0 <= i < |ps| ::
      && InBounds(g, ps[i].position) && ps[i] == g[ps[i].position.y][ps[i].position.x]
      && ps[i].position != start && ps[i].IsVisited()
      && ps[i].parent == Some(Next(ps, i, to))
  }

  /** The position after the `i`th cell of a chain ending at `to`. */
  function Next(ps: seq<MyCell>, i: nat, to: Position): Position
    requires i < |ps|
  {
    if i + 1 < |ps| then ps[i + 1].position else to
  }

  /** The walk `get_parents` does from `from` back to the start. */
  ghost predicate Chain(g: Grid, ps: seq<MyCell>, from: Position, start: Position)
  {
    ChainTo(g, ps, from, start, start)
  }

  /** `get_parents` never ends: the first cell is neither the start nor visited, so it has no parent. */
  ghost predicate Diverges(g: Grid, end: Position, start: Position)
    requires InBounds(g, end) && InBounds(g, From(g, end))
  {
    var p := From(g, end);
    g[p.y][p.x].position != start && !g[p.y][p.x].IsVisited()
  }

  /** Dropping the first cell of a chain leaves a chain from that cell's parent. */
  lemma ChainTail(g: Grid, ps: seq<MyCell>, from: Position, to: Position, start: Position)
    requires ChainTo(g, ps, from, to, start) && ps != []
    ensures ChainTo(g, ps[1..], if 1 < |ps| then ps[1].position else to, to, start)
  {
    var tail := ps[1..];
    forall i | 0 <= i < |tail|
      ensures InBounds(g, tail[i].position) && tail[i] == g[tail[i].position.y][tail[i].position.x]
      ensures tail[i].position != start && tail[i].IsVisited()
      ensures tail[i].parent == Some(Next(tail, i, to))
    {
      assert tail[i] == ps[i + 1];
      if i + 1 < |tail| {
        assert tail[i + 1] == ps[i + 2];
      }
    }
  }

  /** A visited cell other than the start extends a chain that ends at it. */
  lemma ChainExtend(g: Grid, ps: seq<MyCell>, from: Position, last: MyCell, next: Position, start: Position)
    requires ChainTo(g, ps, from, last.position, start)
    requires InBounds(g, last.position) && last == g[last.position.y][last.position.x]
    requires last.position != start && last.IsVisited() && last.parent == Some(next)
    ensures ChainTo(g, ps + [last], from, next, start)
  {
    var ps' := ps + [last];
    forall i | 0 <= i < |ps'|
      ensures InBounds(g, ps'[i].position) && ps'[i] == g[ps'[i].position.y][ps'[i].position.x]
      ensures ps'[i].position != start && ps'[i].IsVisited()
      ensures ps'[i].parent == Some(Next(ps', i, next))
    {
      if i < |ps| {
        assert ps'[i] == ps[i];
      }
    }
  }

  /** Each step of a parent chain is a king's move, so it is at least as long as the distance it covers. */
  lemma {:induction false} ChainLength(g: Grid, ps: seq<MyCell>, from: Position, start: Position)
    requires Linked(g, start) && Chain(g, ps, from, start)
    ensures Chebyshev(from, start) <= |ps|
  {
    if ps == [] {
    } else {
      var p := ps[0].position;
      assert LinkedCell(g, start, p.y, p.x);
      var next := if 1 < |ps| then ps[1].position else start;
      ChainTail(g, ps, from, start, start);
      ChainLength(g, ps[1..], next, start);
      ChebyshevSymmetric(next, p);
      ChebyshevTriangle(from, next, start);
    }
  }

  /**
   * A walk from a reached goal is no shorter than the straight-line
   * distance: with the goal itself, `|ps| + 1` king's moves join the goal
   * to the start.
   */
  lemma PathLowerBound(g: Grid, ps: seq<MyCell>, start: Position, end: Position)
    requires Linked(g, start) && InBounds(g, end) && g[end.y][end.x].parent.Some?
    requires Chain(g, ps, From(g, end), start)
    ensures Chebyshev(start, end) <= |ps| + 1
  {
    assert LinkedCell(g, start, end.y, end.x);
    ChainLength(g, ps, From(g, end), start);
    ChebyshevSymmetric(start, end);
    ChebyshevTriangle(end, From(g, end), start);
  }

  // ---------------------------------------------------------------------
  // The operations

  /** The grid's positions survive the `i32` casts. */
  ghost predicate FitsI32(m: Matrix)
    reads m
  {
    m.ySize <= I32_LIMIT && m.xSize <= I32_LIMIT
  }

  /**
   * One pass of the neighbour loop of `find_shortest`: the cost of reaching
   * `neighbour` through `current` is `current`'s cost plus one step; an open
   * neighbour that is unvisited or now reached more cheaply is relaxed and,
   * unless it is the goal (`hit`), pushed. A relaxation visits a new cell or
   * lowers a visited cell's cost.
   */
  method RelaxNeighbour(m: Matrix, current: MyCell, neighbour: MyCell, start: Position, end: Position, pq: multiset<MyCell>)
    returns (pq': multiset<MyCell>, hit: bool)
    requires m.Valid() && Placed(m.cells) && Linked(m.cells, start) && FitsI32(m)
    requires FrontierOk(pq, m.cells, start) && EntryOk(current, m.cells, start)
    requires InBounds(m.cells, end)
    requires Listed(current.position, neighbour.position, m.ySize, m.xSize)
    modifies m
    ensures (m.cells, pq', hit) == RelaxOne(old(m.cells), current, neighbour, end, pq)
    ensures m.Valid() && Placed(m.cells) && Linked(m.cells, start)
    ensures FrontierOk(pq', m.cells, start) && EntryOk(current, m.cells, start)
    ensures
      var u, d, u0, d0 := GridWeight(m.cells, false), GridWeight(m.cells, true),
        old(GridWeight(m.cells, false)), old(GridWeight(m.cells, true));
      u < u0 || (u == u0 && d < d0) || (u == u0 && d == d0 && pq' == pq && !hit)
  {
    pq', hit := pq, false;
    var q := neighbour.position;
    var cost := current.distance + current.position.Distance(q);
    var c0 := m.At(q);
    ghost var g := m.cells;
    assert cost == Cost(current, neighbour);
    if !neighbour.IsWall() && (!c0.IsVisited() || cost < c0.distance) {
      var h := Heuristic(q, end);
      assert Relaxes(g, current, neighbour);
      RelaxLinked(g, start, current, q, cost, h);
      RelaxFrontier(g, start, pq, current, q, cost, h);
      RelaxMeasure(g, current, q, cost, h);
      m.Put(q, Relaxed(c0, current, cost, h));
      if q.y == end.y && q.x == end.x {
        return pq', true;
      }
      pq' := pq' + multiset{m.At(q)};
    } else {
      assert !Relaxes(g, current, neighbour);
    }
  }

  /**
   * The body of the search loop of `find_shortest` after the pop: relax the
   * listed neighbours of `current` in the order `get_neighbours` lists them,
   * and stop at once when the goal is relaxed (`break 'outer` in the source;
   * `hit` reports it). The neighbours are copies read before the loop.
   * Unless the goal was relaxed, every open listed neighbour of `current` is
   * then visited at a cost at most one more than `current`'s.
   */
  method Expand(m: Matrix, current: MyCell, start: Position, end: Position, pq: multiset<MyCell>)
    returns (pq': multiset<MyCell>, hit: bool)
    requires m.Valid() && Placed(m.cells) && Linked(m.cells, start) && FitsI32(m)
    requires FrontierOk(pq, m.cells, start) && EntryOk(current, m.cells, start)
    requires InBounds(m.cells, end)
    modifies m
    ensures var ns := CellsAt(old(m.cells), Neighbours(current.position, m.ySize, m.xSize));
      CopiesOf(ns, old(m.cells)) && (m.cells, pq', hit) == RelaxAll(old(m.cells), current, ns, end, pq)
    ensures m.Valid() && Placed(m.cells) && Linked(m.cells, start)
    ensures FrontierOk(pq', m.cells, start)
    ensures Improved(m.cells, old(m.cells)) && pq <= pq'
    ensures hit ==> m.cells[end.y][end.x].IsVisited()
    ensures !hit ==> Pushed(m.cells, old(m.cells), pq')
    ensures !hit ==> Closed(m.cells, current.position, current.distance, m.ySize, m.xSize)
    ensures
      var u, d, u0, d0 := GridWeight(m.cells, false), GridWeight(m.cells, true),
        old(GridWeight(m.cells, false)), old(GridWeight(m.cells, true));
      u < u0 || (u == u0 && d < d0) || (u == u0 && d == d0 && pq' == pq)
  {
    ghost var u0, d0 := GridWeight(m.cells, false), GridWeight(m.cells, true);
    var ns, ps := m.GetNeighbours(current);
    ghost var g1 := m.cells;
    NeighbourCopies(g1, current.position, ns, m.ySize, m.xSize);
    RelaxAllImproves(g1, current, ns, end, pq);
    RelaxAllReaches(g1, current, ns, end, pq);
    pq', hit := pq, false;
    var k := 0;
    InsideFrom(ns, g1, m.cells, k);
    while k < |ns|
      invariant k <= |ns|
      invariant m.Valid() && Placed(m.cells) && Linked(m.cells, start)
      invariant FrontierOk(pq', m.cells, start) && EntryOk(current, m.cells, start)
      invariant SameShape(m.cells, g1) && Inside(ns[k..], m.cells)
      invariant RelaxAll(g1, current, ns, end, pq) == RelaxAll(m.cells, current, ns[k..], end, pq')
      invariant
        var u, d := GridWeight(m.cells, false), GridWeight(m.cells, true);
        u < u0 || (u == u0 && d < d0) || (u == u0 && d == d0 && pq' == pq)
    {
      RelaxAllStep(m.cells, current, ns, k, end, pq');
      pq', hit := RelaxNeighbour(m, current, ns[k], start, end, pq');
      if hit {
        return;
      }
      k := k + 1;
    }
    if !hit {
      ExpandCloses(g1, m.cells, current, ns, m.ySize, m.xSize);
    }
  }

  /**
   * The search loop of `find_shortest`: pop the best cell and expand it,
   * until the goal is relaxed or the frontier runs dry. The start's clone
   * enters the frontier visited and at cost 0, while the start's own grid
   * cell is left as it was. The grid is only improved (walls untouched,
   * cells visited or made cheaper), parent links stay consistent, and
   * `reached` says the goal was relaxed. When it was not, the start and
   * every cell the search changed are closed: all their open listed
   * neighbours are visited, at most one step dearer.
   */
  method Search(m: Matrix, start: Position, end: Position) returns (ghost reached: bool)
    requires m.Valid() && Placed(m.cells) && Linked(m.cells, start) && FitsI32(m)
    requires InBounds(m.cells, start) && InBounds(m.cells, end)
    modifies m
    ensures m.Valid() && Placed(m.cells) && Linked(m.cells, start)
    ensures Improved(m.cells, old(m.cells))
    ensures reached ==> m.cells[end.y][end.x].IsVisited()
    ensures !reached ==> Closed(m.cells, start, 0, m.ySize, m.xSize)
    ensures !reached ==> AllClosed(m.cells, old(m.cells), m.ySize, m.xSize)
  {
    var startCell := m.At(start);
    startCell := startCell.SetVisited(true);
    startCell := startCell.SetDistance(0);
    var pq := multiset{startCell};
    reached := false;
    ghost var g0 := m.cells;
    ghost var s := startCell;
    ImprovedRefl(g0);
    while pq != multiset{}
      invariant m.Valid() && Placed(m.cells) && Linked(m.cells, start)
      invariant FrontierOk(pq, m.cells, start)
      invariant Improved(m.cells, g0)
      invariant s.position == start && s.distance == 0
      invariant Closed(m.cells, start, 0, m.ySize, m.xSize) || s in pq
      invariant Settled(m.cells, g0, pq, m.ySize, m.xSize)
      decreases GridWeight(m.cells, false), GridWeight(m.cells, true), |pq|
    {
      ExistsMaximum(pq);
      var current :| current in pq && IsMaximum(current, pq);
      ghost var pq0 := pq;
      pq := pq - multiset{current};
      assert EntryOk(current, m.cells, start);
      var hit;
      ghost var g1 := m.cells;
      pq, hit := Expand(m, current, start, end, pq);
      ImprovedTransitive(m.cells, g1, g0);
      if hit {
        reached := true;
        break;
      }
      SearchStep(g0, g1, m.cells, pq0, current, pq, s, m.ySize, m.xSize);
    }
  }

  /**
   * `get_parents`: the cells met following parent links from the goal's
   * parent (or from `(0, 0)` when the goal has none) until the start, the
   * start excluded. The source loops forever when that first cell is
   * neither the start nor visited; the model returns `None` there.
   */
  method GetParents(m: Matrix, start: MyCell, end: Position) returns (path: Option<seq<MyCell>>)
    requires m.Valid() && Placed(m.cells) && Linked(m.cells, start.position)
    requires InBounds(m.cells, end)
    ensures InBounds(m.cells, From(m.cells, end))
    ensures path.None? <==> Diverges(m.cells, end, start.position)
    ensures path.Some? ==> Chain(m.cells, path.value, From(m.cells, end), start.position)
  {
    ghost var g := m.cells;
    assert LinkedCell(g, start.position, end.y, end.x);
    var parent := Position(0, 0);
    if m.At(end).parent.Some? {
      parent := m.At(end).parent.value;
    }
    var last := m.At(parent);
    if last.position != start.position && !last.IsVisited() {
      return None;
    }
    var ps: seq<MyCell> := [];
    while last.position != start.position
      invariant InBounds(g, last.position) && last == g[last.position.y][last.position.x]
      invariant last.position != start.position ==> last.IsVisited()
      invariant ChainTo(g, ps, parent, last.position, start.position)
      decreases if last.position == start.position then 0 else last.distance + 1
    {
      assert LinkedCell(g, start.position, last.position.y, last.position.x);
      ChainExtend(g, ps, parent, last, last.parent.value, start.position);
      ps := ps + [last];
      last := m.At(last.parent.value);
    }
    path := Some(ps);
  }

  /** `p` is the position of a cell of `ps`. */
  ghost predicate OnPath(ps: seq<MyCell>, p: Position)
  {
    exists i | 0 <= i < |ps| :: ps[i].position == p
  }

  /** The loop of `find_shortest` that sets the walk flag of every cell of the path. */
  method MarkWalk(m: Matrix, path: seq<MyCell>)
    requires m.Valid() && forall i | 0 <= i < |path| :: InBounds(m.cells, path[i].position)
    modifies m
    ensures m.Valid()
    ensures forall y, x | 0 <= y < m.ySize && 0 <= x < m.xSize ::
      m.cells[y][x] == if OnPath(path, Position(y, x)) then old(m.cells)[y][x].SetWalk(true) else old(m.cells)[y][x]
  {
    var k := 0;
    while k < |path|
      invariant k <= |path| && m.Valid()
      invariant forall y, x | 0 <= y < m.ySize && 0 <= x < m.xSize ::
        m.cells[y][x] == if OnPath(path[..k], Position(y, x)) then old(m.cells)[y][x].SetWalk(true) else old(m.cells)[y][x]
    {
      var p := path[k].position;
      m.Put(p, m.At(p).SetWalk(true));
      forall y, x | 0 <= y < m.ySize && 0 <= x < m.xSize
        ensures OnPath(path[..k + 1], Position(y, x)) <==> OnPath(path[..k], Position(y, x)) || Position(y, x) == p
      {
        if OnPath(path[..k + 1], Position(y, x)) {
          var i :| 0 <= i < k + 1 && path[..k + 1][i].position == Position(y, x);
          if i < k {
            assert path[..k][i].position == Position(y, x);
          }
        }
        if OnPath(path[..k], Position(y, x)) {
          var i :| 0 <= i < k && path[..k][i].position == Position(y, x);
          assert path[..k + 1][i].position == Position(y, x);
        }
        if Position(y, x) == p {
          assert path[..k + 1][k].position == p;
        }
      }
      k := k + 1;
    }
    assert path[..k] == path;
  }

  /**
   * `find_shortest`: search from `start` until the goal is relaxed, walk
   * back along the parents, set the walk flag of each cell of the walk, and
   * return the walk with a clone of the grid. `searched` is the grid the
   * search left, before the flags were set: an improvement of the input in
   * which, when the goal stays unvisited, the start and every changed cell
   * are closed. On a grid `get_matrix` built, the goal then has no open walk
   * from the start, so a reachable goal always yields a walk.
   */
  method FindShortest(m: Matrix, start: Position, end: Position)
    returns (path: Option<seq<MyCell>>, out: Matrix, ghost searched: Grid)
    requires m.Valid() && Placed(m.cells) && Linked(m.cells, start) && FitsI32(m)
    requires InBounds(m.cells, start) && InBounds(m.cells, end)
    modifies m
    ensures m.Valid() && IsGrid(searched, m.ySize, m.xSize) && Placed(searched) && Linked(searched, start)
    ensures Improved(searched, old(m.cells))
    ensures !searched[end.y][end.x].IsVisited() ==>
      Closed(searched, start, 0, m.ySize, m.xSize) && AllClosed(searched, old(m.cells), m.ySize, m.xSize)
    ensures Unsearched(old(m.cells)) && !searched[end.y][end.x].IsVisited() ==>
      forall ws :: !OpenWalk(old(m.cells), ws, start, end, m.ySize, m.xSize)
    ensures searched[end.y][end.x].IsVisited() ==> path.Some?
    ensures path.None? ==> InBounds(searched, From(searched, end)) && Diverges(searched, end, start)
    ensures path.Some? ==> Chain(searched, path.value, From(searched, end), start)
    ensures path.Some? ==> forall y, x | 0 <= y < m.ySize && 0 <= x < m.xSize ::
      m.cells[y][x] == if OnPath(path.value, Position(y, x)) then searched[y][x].SetWalk(true) else searched[y][x]
    ensures fresh(out) && out.Valid() && out.cells == m.cells && out.ySize == m.ySize && out.xSize == m.xSize
  {
    ghost var reached := Search(m, start, end);
    searched := m.cells;
    if Unsearched(old(m.cells)) && !searched[end.y][end.x].IsVisited() {
      forall ws
        ensures !OpenWalk(old(m.cells), ws, start, end, m.ySize, m.xSize)
      {
        GoalUnreachable(searched, old(m.cells), ws, start, end, m.ySize, m.xSize);
      }
    }
    var startCell := m.At(start);
    assert LinkedCell(searched, start, end.y, end.x);
    ghost var from := From(searched, end);
    assert searched[from.y][from.x].position == from;
    path := GetParents(m, startCell, end);
    if path.Some? {
      MarkWalk(m, path.value);
    }
    out := m.Clone();
  }
}
