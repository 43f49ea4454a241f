/**
 * The dense grid of cells `Matrix<T>` (src/backend/matrix.rs).
 *
 * The source's `Matrix<T: Cell>` is only ever instantiated with `MyCell`,
 * so the model fixes the element type. Its rows are a `Vec<Vec<T>>`, here a
 * `seq<seq<MyCell>>` field that the mutators reassign.
 */
module Matrices {
  import opened Common
  import opened Positions
  import opened Cells

  type Grid = seq<seq<MyCell>>

  /** `g` has `ySize` rows of `xSize` cells. */
  ghost predicate IsGrid(g: Grid, ySize: nat, xSize: nat)
  {
    |g| == ySize && forall y | 0 <= y < ySize :: |g[y]| == xSize
  }

  predicate InBounds(g: Grid, p: Position)
  {
    p.y < |g| && p.x < |g[p.y]|
  }

  /** Every cell stores the coordinates of the slot it occupies. */
  ghost predicate Placed(g: Grid)
  {
    forall y, x | 0 <= y < |g| && 0 <= x < |g[y]| :: g[y][x].position == Position(y, x)
  }

  /** `g` with the cell at `p` replaced by `c`. */
  function Updated(g: Grid, p: Position, c: MyCell): (g': Grid)
    requires InBounds(g, p)
    ensures |g'| == |g| && forall y | 0 <= y < |g| :: |g'[y]| == |g[y]|
    ensures g'[p.y][p.x] == c
    ensures forall y, x | 0 <= y < |g| && 0 <= x < |g[y]| && Position(y, x) != p :: g'[y][x] == g[y][x]
  {
    g[p.y := g[p.y][p.x := c]]
  }

  /**
   * The neighbours `get_neighbours` lists for a cell at `p`: positions one
   * king's move away inside the grid, except that, as written, a neighbour in
   * the row above is listed only from row 2 on (`test_y - 1 > 0`) and a
   * diagonal neighbour in the column to the left only from column 2 on
   * (`test_x - 1 > 0`).
   */
  predicate Listed(p: Position, q: Position, ySize: nat, xSize: nat)
  {
    && Chebyshev(p, q) == 1
    && q.y < ySize && q.x < xSize
    && (q.y < p.y ==> p.y >= 2)
    && (q.x < p.x && q.y != p.y ==> p.x >= 2)
  }

  /** Row 0 is never listed as the neighbour of a cell in another row. */
  lemma RowZeroOnlySideways(p: Position, q: Position, ySize: nat, xSize: nat)
    requires Listed(p, q, ySize, xSize) && q.y == 0
    ensures p.y == 0
  {
  }

  /** Every other in-grid king's move is listed. */
  lemma ListedAwayFromTopLeft(p: Position, q: Position, ySize: nat, xSize: nat)
    requires Chebyshev(p, q) == 1 && q.y < ySize && q.x < xSize && q.y >= 1 && q.x >= 1
    ensures Listed(p, q, ySize, xSize)
  {
  }

  /**
   * The place of a king's move from `p` to `q` in the order `get_neighbours`
   * tries them: south-west 0, south 1, south-east 2, west 3, east 5,
   * north-west 6, north 7, north-east 8.
   */
  function Rank(p: Position, q: Position): int
  {
    3 * (p.y - q.y + 1) + (q.x - p.x + 1)
  }

  /**
   * `ps` lists, in the source's order and without repetition, exactly the
   * listed neighbours of `p` whose rank is below `r`.
   */
  ghost predicate ListedBelow(p: Position, ps: seq<Position>, r: int, ySize: nat, xSize: nat)
  {
    && (forall i | 0 <= i < |ps| :: Listed(p, ps[i], ySize, xSize) && Rank(p, ps[i]) < r)
    && (forall i, j | 0 <= i < j < |ps| :: Rank(p, ps[i]) < Rank(p, ps[j]))
    && (forall q | Listed(p, q, ySize, xSize) && Rank(p, q) < r :: q in ps)
  }

  /**
   * The bounds test `get_neighbours` makes before reading the move of rank
   * `r` (rank 4, the cell itself, is never tried).
   */
  predicate Tried(p: Position, r: int, ySize: nat, xSize: nat)
  {
    match r
    case 0 => p.x - 1 > 0 && p.y + 1 < ySize
    case 1 => p.y + 1 < ySize
    case 2 => p.y + 1 < ySize && p.x + 1 < xSize
    case 3 => p.x >= 1 && p.x - 1 < xSize
    case 5 => p.x + 1 < xSize
    case 6 => p.x - 1 > 0 && p.y - 1 > 0
    case 7 => p.y - 1 > 0
    case 8 => p.y - 1 > 0 && p.x + 1 < xSize
    case _ => false
  }

  /** The move of rank `r` from `p`, read when its test passes. */
  function Move(p: Position, r: int, ySize: nat, xSize: nat): (q: Position)
    requires p.y < ySize && p.x < xSize && Tried(p, r, ySize, xSize)
    ensures Listed(p, q, ySize, xSize) && Rank(p, q) == r
  {
    match r
    case 0 => Position(p.y + 1, p.x - 1)
    case 1 => Position(p.y + 1, p.x)
    case 2 => Position(p.y + 1, p.x + 1)
    case 3 => Position(p.y, p.x - 1)
    case 5 => Position(p.y, p.x + 1)
    case 6 => Position(p.y - 1, p.x - 1)
    case 7 => Position(p.y - 1, p.x)
    case 8 => Position(p.y - 1, p.x + 1)
  }

  /** A listed neighbour's test passes: no listed neighbour is skipped. */
  lemma ListedIsTried(p: Position, q: Position, ySize: nat, xSize: nat)
    requires Listed(p, q, ySize, xSize)
    ensures Tried(p, Rank(p, q), ySize, xSize)
  {
  }

  /** A listed neighbour's rank is one of 0 to 8. */
  lemma RankRange(p: Position, q: Position, ySize: nat, xSize: nat)
    requires Listed(p, q, ySize, xSize)
    ensures 0 <= Rank(p, q) <= 8
  {
  }

  /** Before any test, no listed neighbour has a rank below 0. */
  lemma NoneBelowZero(p: Position, ySize: nat, xSize: nat)
    ensures ListedBelow(p, [], 0, ySize, xSize)
  {
    forall q | Listed(p, q, ySize, xSize)
      ensures Rank(p, q) >= 0
    {
      RankRange(p, q, ySize, xSize);
    }
  }

  /** Appending the listed neighbour of rank `k` when the ranks below `k` are done. */
  lemma PushListed(p: Position, ps: seq<Position>, k: int, r: int, q: Position, ySize: nat, xSize: nat)
    requires r == k + 1 && ListedBelow(p, ps, k, ySize, xSize)
    requires Listed(p, q, ySize, xSize) && Rank(p, q) == k
    ensures ListedBelow(p, ps + [q], r, ySize, xSize)
  {
    var ps' := ps + [q];
    forall i, j | 0 <= i < j < |ps'|
      ensures Rank(p, ps'[i]) < Rank(p, ps'[j])
    {
      assert ps'[i] == ps[i];
      if j < |ps| {
        assert ps'[j] == ps[j];
      }
    }
    forall q' | Listed(p, q', ySize, xSize) && Rank(p, q') < r
      ensures q' in ps'
    {
      if Rank(p, q') == k {
        assert q' == q;
      } else {
        assert q' in ps;
      }
    }
  }

  /** Passing over rank `k` when its move is not listed. */
  lemma SkipRank(p: Position, ps: seq<Position>, k: int, r: int, ySize: nat, xSize: nat)
    requires r == k + 1 && ListedBelow(p, ps, k, ySize, xSize)
    requires !Tried(p, k, ySize, xSize)
    ensures ListedBelow(p, ps, r, ySize, xSize)
  {
    forall q | Listed(p, q, ySize, xSize)
      ensures Rank(p, q) != k
    {
      ListedIsTried(p, q, ySize, xSize);
    }
  }

  /**
   * All nine ranks tried: every listed neighbour appears, exactly once, and
   * there are at most eight.
   */
  lemma AllListed(p: Position, ps: seq<Position>, ySize: nat, xSize: nat)
    requires ListedBelow(p, ps, 9, ySize, xSize)
    ensures |ps| <= 8
    ensures forall i | 0 <= i < |ps| :: Listed(p, ps[i], ySize, xSize)
    ensures forall q | Listed(p, q, ySize, xSize) :: q in ps
    ensures forall i, j | 0 <= i < j < |ps| :: ps[i] != ps[j]
  {
    if |ps| > 0 {
      RanksBound(p, ps, |ps| - 1, ySize, xSize);
    }
  }

  /**
   * The positions `get_neighbours` has pushed for a cell at `p` once the
   * tests of the ranks below `r` are done, in the order it pushes them.
   */
  function ListedUpTo(p: Position, r: nat, ySize: nat, xSize: nat): seq<Position>
    requires p.y < ySize && p.x < xSize
  {
    if r == 0 then []
    else
      ListedUpTo(p, r - 1, ySize, xSize)
        + (if Tried(p, r - 1, ySize, xSize) then [Move(p, r - 1, ySize, xSize)] else [])
  }

  /** The test of rank `r - 1` pushes the listed neighbour of that rank, if any. */
  lemma ListedUpToStep(p: Position, r: nat, ySize: nat, xSize: nat)
    requires p.y < ySize && p.x < xSize && r >= 1
    requires ListedBelow(p, ListedUpTo(p, r - 1, ySize, xSize), r - 1, ySize, xSize)
    ensures ListedBelow(p, ListedUpTo(p, r, ySize, xSize), r, ySize, xSize)
  {
    var ps := ListedUpTo(p, r - 1, ySize, xSize);
    if Tried(p, r - 1, ySize, xSize) {
      PushListed(p, ps, r - 1, r, Move(p, r - 1, ySize, xSize), ySize, xSize);
    } else {
      SkipRank(p, ps, r - 1, r, ySize, xSize);
    }
  }

  /** The pushes of the first `r` tests list exactly the listed neighbours of rank below `r`, in rank order. */
  lemma {:induction false} ListedUpToBelow(p: Position, r: nat, ySize: nat, xSize: nat)
    requires p.y < ySize && p.x < xSize
    ensures ListedBelow(p, ListedUpTo(p, r, ySize, xSize), r, ySize, xSize)
  {
    if r == 0 {
      NoneBelowZero(p, ySize, xSize);
    } else {
      ListedUpToBelow(p, r - 1, ySize, xSize);
      ListedUpToStep(p, r, ySize, xSize);
    }
  }

  /**
   * The positions `get_neighbours` lists for a cell at `p`, in its order:
   * every listed neighbour exactly once, by increasing rank (south-west,
   * south, south-east, west, east, north-west, north, north-east).
   */
  function Neighbours(p: Position, ySize: nat, xSize: nat): (ps: seq<Position>)
    requires p.y < ySize && p.x < xSize
    ensures |ps| <= 8
    ensures forall i | 0 <= i < |ps| :: Listed(p, ps[i], ySize, xSize)
    ensures forall q | Listed(p, q, ySize, xSize) :: q in ps
    ensures forall i, j | 0 <= i < j < |ps| :: Rank(p, ps[i]) < Rank(p, ps[j])
    ensures forall i, j | 0 <= i < j < |ps| :: ps[i] != ps[j]
  {
    ListedUpToBelow(p, 9, ySize, xSize);
    AllListed(p, ListedUpTo(p, 9, ySize, xSize), ySize, xSize);
    ListedUpTo(p, 9, ySize, xSize)
  }

  /** The cell of `g` at `q`, or a fresh open cell when `q` is outside `g`. */
  function CellAt(g: Grid, q: Position): MyCell
  {
    if InBounds(g, q) then g[q.y][q.x] else MyCell.New(0, 0, OPEN)
  }

  /** The cells of `g` at the positions `ps`, in order. */
  ghost function CellsAt(g: Grid, ps: seq<Position>): (cs: seq<MyCell>)
    ensures |cs| == |ps|
  {
    if ps == [] then [] else CellsAt(g, ps[..|ps| - 1]) + [CellAt(g, ps[|ps| - 1])]
  }

  /** Each entry of `CellsAt(g, ps)` is the cell at the matching position. */
  lemma {:induction false} CellsAtIndex(g: Grid, ps: seq<Position>)
    ensures forall i | 0 <= i < |ps| :: CellsAt(g, ps)[i] == CellAt(g, ps[i])
  {
    if ps != [] {
      CellsAtIndex(g, ps[..|ps| - 1]);
    }
  }

  /** The cells at the listed neighbours of `p` are the grid's cells there. */
  lemma NeighbourCells(g: Grid, p: Position, ySize: nat, xSize: nat)
    requires IsGrid(g, ySize, xSize) && p.y < ySize && p.x < xSize
    ensures var ps := Neighbours(p, ySize, xSize);
      forall i | 0 <= i < |ps| :: InBounds(g, ps[i]) && CellsAt(g, ps)[i] == g[ps[i].y][ps[i].x]
  {
    var ps := Neighbours(p, ySize, xSize);
    CellsAtIndex(g, ps);
    forall i | 0 <= i < |ps|
      ensures InBounds(g, ps[i])
    {
      assert Listed(p, ps[i], ySize, xSize);
    }
  }

  /** Reading one more cell extends `CellsAt` by that cell. */
  lemma PushCell(g: Grid, ps: seq<Position>, q: Position)
    ensures CellsAt(g, ps + [q]) == CellsAt(g, ps) + [CellAt(g, q)]
  {
    assert (ps + [q])[..|ps|] == ps;
  }

  /** Ranks strictly increase and skip 4, so the entry at `k` has rank at least `k`, and more once past 4. */
  lemma {:induction false} RanksBound(p: Position, ps: seq<Position>, k: nat, ySize: nat, xSize: nat)
    requires ListedBelow(p, ps, 9, ySize, xSize) && k < |ps|
    ensures Rank(p, ps[k]) >= k
    ensures Rank(p, ps[k]) >= 4 ==> Rank(p, ps[k]) >= k + 1
  {
    if k > 0 {
      RanksBound(p, ps, k - 1, ySize, xSize);
    }
  }

  class Matrix {
    var cells: Grid
    const ySize: nat
    const xSize: nat

    ghost predicate Valid()
      reads this
    {
      IsGrid(cells, ySize, xSize)
    }

    /**
     * `Matrix::new(x_size, y_size)`: `y_size` rows of `x_size` copies of
     * `T::new(0, 0, 0)`. The dimensions are fixed for the matrix's lifetime
     * (`y_size()` and `x_size()` return them).
     */
    constructor (xSize: nat, ySize: nat)
      ensures Valid() && this.xSize == xSize && this.ySize == ySize
      ensures forall y, x | 0 <= y < ySize && 0 <= x < xSize ::
        cells[y][x] == MyCell.New(0, 0, OPEN) && !cells[y][x].IsWall() && !cells[y][x].IsVisited()
    {
      this.xSize := xSize;
      this.ySize := ySize;
      cells := seq(ySize, _ => seq(xSize, _ => MyCell.New(0, 0, OPEN)));
    }

    /**
     * `Index<(u32, u32)>` and `Index<(usize, usize)>`: row `y`, column `x`;
     * in a grid whose cells sit at their own coordinates, the cell read is
     * the one at `(y, x)`.
     */
    function Get(y: nat, x: nat): (c: MyCell)
      reads this
      requires Valid() && y < ySize && x < xSize
      ensures Placed(cells) ==> c.position == Position(y, x)
    {
      cells[y][x]
    }

    /** `Index<&Position>`: the position's `y` selects the row and its `x` the column. */
    function At(p: Position): (c: MyCell)
      reads this
      requires Valid() && p.y < ySize && p.x < xSize
      ensures c == Get(p.y, p.x)
    {
      cells[p.y][p.x]
    }

    /** `IndexMut<(u32, u32)>` followed by an assignment: only that cell changes. */
    method Set(y: nat, x: nat, c: MyCell)
      requires Valid() && y < ySize && x < xSize
      modifies this
      ensures Valid()
      ensures cells == Updated(old(cells), Position(y, x), c)
      ensures Get(y, x) == c
      ensures forall y', x' | 0 <= y' < ySize && 0 <= x' < xSize && (y', x') != (y, x) ::
        Get(y', x') == old(Get(y', x'))
    {
      cells := cells[y := cells[y][x := c]];
    }

    /** `IndexMut<&Position>` followed by an assignment. */
    method Put(p: Position, c: MyCell)
      requires Valid() && p.y < ySize && p.x < xSize
      modifies this
      ensures Valid()
      ensures cells == Updated(old(cells), p, c)
    {
      Set(p.y, p.x, c);
    }

    /**
     * One of the bounds tests of `get_neighbours`: when the test for the
     * move of rank `r` passes, a copy of that cell is pushed.
     */
    method TryMove(p: Position, r: nat, ns: seq<MyCell>) returns (ns': seq<MyCell>, r': nat)
      requires Valid() && p.y < ySize && p.x < xSize
      requires ns == CellsAt(cells, ListedUpTo(p, r, ySize, xSize))
      ensures r' == r + 1 && ns' == CellsAt(cells, ListedUpTo(p, r', ySize, xSize))
    {
      ns', r' := ns, r + 1;
      assert ListedUpTo(p, r', ySize, xSize) == ListedUpTo(p, r, ySize, xSize)
        + (if Tried(p, r, ySize, xSize) then [Move(p, r, ySize, xSize)] else []);
      if Tried(p, r, ySize, xSize) {
        var q := Move(p, r, ySize, xSize);
        PushCell(cells, ListedUpTo(p, r, ySize, xSize), q);
        ns' := ns + [cells[q.y][q.x]];
      } else {
        assert ListedUpTo(p, r', ySize, xSize) == ListedUpTo(p, r, ySize, xSize);
      }
    }

    /**
     * `get_neighbours`: copies of the listed neighbours of the cell's
     * position, in the source's order (south-west, south, south-east, west,
     * east, north-west, north, north-east), each pushed when its bounds test
     * passes. `ps` names the position each copy was read from; the source
     * wraps every copy in `Ok`, which the model drops.
     */
    method GetNeighbours(c: MyCell) returns (ns: seq<MyCell>, ghost ps: seq<Position>)
      requires Valid() && c.position.y < ySize && c.position.x < xSize && c.position.FitsI32()
      ensures ps == Neighbours(c.position, ySize, xSize) && ns == CellsAt(cells, ps)
      ensures |ns| == |ps| <= 8
      ensures forall i | 0 <= i < |ps| ::
        Listed(c.position, ps[i], ySize, xSize) && ns[i] == cells[ps[i].y][ps[i].x]
      ensures forall q | Listed(c.position, q, ySize, xSize) :: q in ps
      ensures forall i, j | 0 <= i < j < |ps| :: Rank(c.position, ps[i]) < Rank(c.position, ps[j])
    {
      var p := c.position;
      ns := [];
      var r := 0;  // the rank of the move tested next
      ns, r := TryMove(p, r, ns);  // south-west
      ns, r := TryMove(p, r, ns);  // south
      ns, r := TryMove(p, r, ns);  // south-east
      ns, r := TryMove(p, r, ns);  // west
      ns, r := TryMove(p, r, ns);  // the cell itself is never tried
      ns, r := TryMove(p, r, ns);  // east
      ns, r := TryMove(p, r, ns);  // north-west
      ns, r := TryMove(p, r, ns);  // north
      ns, r := TryMove(p, r, ns);  // north-east
      assert r == 9;
      ps := Neighbours(p, ySize, xSize);
      NeighbourCells(cells, p, ySize, xSize);
    }

    /** `Clone for Matrix`: a fresh matrix with the same cells. */
    method Clone() returns (m: Matrix)
      requires Valid()
      ensures fresh(m) && m.Valid()
      ensures m.cells == cells && m.ySize == ySize && m.xSize == xSize
    {
      m := new Matrix(xSize, ySize);
      m.cells := cells;
    }
  }
}
