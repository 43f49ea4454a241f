/**
 * The per-grid-point search state `MyCell` (src/cell/mod.rs).
 *
 * A cell is a plain value in the source: it is cloned into the frontier and
 * out of the grid, and its `set_*` methods change only the copy they are
 * called on. The model therefore makes `MyCell` a datatype whose setters
 * return the updated value; updating a cell that lives in the grid is the
 * job of `Matrices.Matrix.Put`.
 *
 * The type byte `t` encodes open (0), wall (1), red start marker (2), blue
 * end marker (3) and visited (4).
 */
module Cells {
  import opened Common
  import opened Positions

  const OPEN: Byte := 0
  const WALL: Byte := 1
  const RED: Byte := 2
  const BLUE: Byte := 3
  const VISITED: Byte := 4

  /** `std::cmp::Ordering`. */
  datatype Ordering = Less | Equal | Greater {
    function Reverse(): Ordering
    {
      match this
      case Less => Greater
      case Equal => Equal
      case Greater => Less
    }
  }

  /** `u32::cmp`. */
  function CompareNat(a: nat, b: nat): Ordering
  {
    if a < b then Less else if a == b then Equal else Greater
  }

  datatype MyCell = MyCell(
    position: Position,
    t: Byte,
    distance: nat,
    heuristics: nat,
    parent: Option<Position>,
    walk: bool)
  {
    /** `MyCell::new(y, x, t)`: a fresh cell with no search state. */
    static function New(y: nat, x: nat, t: Byte): (c: MyCell)
      ensures c.position == Position(y, x) && c.t == t
      ensures c.distance == 0 && c.heuristics == 0 && c.parent == None && !c.walk
      ensures c.IsWall() <==> t == WALL
      ensures c.IsVisited() <==> t == VISITED
    {
      MyCell(Position(y, x), t, 0, 0, None, false)
    }

    /** `get_visited`: the type byte is 4; a visited cell is never a wall. */
    predicate IsVisited()
      ensures IsVisited() ==> !IsWall()
    {
      t == VISITED
    }

    /** `is_wall`: the type byte is 1, which is not the visited byte. */
    predicate IsWall()
      ensures IsWall() ==> t != VISITED
    {
      t == WALL
    }

    /**
     * `set_visited`: the type byte becomes 4 or 0, so the visited flag is
     * the argument and the cell is no longer a wall or a marker.
     */
    function SetVisited(visited: bool): (c: MyCell)
      ensures c.IsVisited() == visited && !c.IsWall()
      ensures c.t == (if visited then VISITED else OPEN)
      ensures c.position == position && c.distance == distance && c.heuristics == heuristics
      ensures c.parent == parent && c.walk == walk
    {
      this.(t := if visited then VISITED else OPEN)
    }

    /** `set_walk`: only the walk flag changes. */
    function SetWalk(walk: bool): (c: MyCell)
      ensures c.walk == walk
      ensures c.position == position && c.t == t && c.distance == distance
      ensures c.heuristics == heuristics && c.parent == parent
    {
      this.(walk := walk)
    }

    /** `set_parent`: records the parent's coordinates, not the parent cell. */
    function SetParent(p: MyCell): (c: MyCell)
      ensures c.parent == Some(p.position)
      ensures c.position == position && c.t == t && c.distance == distance
      ensures c.heuristics == heuristics && c.walk == walk
    {
      this.(parent := Some(p.position))
    }

    /** `set_distance`: only the distance changes. */
    function SetDistance(d: nat): (c: MyCell)
      ensures c.distance == d
      ensures c.position == position && c.t == t && c.heuristics == heuristics
      ensures c.parent == parent && c.walk == walk
    {
      this.(distance := d)
    }

    /** `set_heuristics`: only the heuristic estimate changes. */
    function SetHeuristics(h: nat): (c: MyCell)
      ensures c.heuristics == h
      ensures c.position == position && c.t == t && c.distance == distance
      ensures c.parent == parent && c.walk == walk
    {
      this.(heuristics := h)
    }

    /** `get_combined`: the priority key, estimate plus cost so far; it bounds both. */
    function Combined(): (k: nat)
      ensures k >= distance && k >= heuristics
      ensures k == distance <==> heuristics == 0
    {
      heuristics + distance
    }

    /**
     * `Ord for MyCell`: combined cost reversed, then distance. A cell
     * compares greater (and leaves the max-heap earlier) when its combined
     * cost is smaller, or equal with a larger distance.
     */
    function Cmp(other: MyCell): (o: Ordering)
      ensures o == Greater <==>
        Combined() < other.Combined() || (Combined() == other.Combined() && distance > other.distance)
      ensures o == Less <==>
        Combined() > other.Combined() || (Combined() == other.Combined() && distance < other.distance)
      ensures o == Equal <==> Combined() == other.Combined() && distance == other.distance
    {
      match CompareNat(other.Combined(), Combined())
      case Equal => CompareNat(distance, other.distance)
      case o => o
    }

    /** `PartialEq for MyCell`: cells are equal when their positions are. */
    predicate Equals(other: MyCell)
      ensures Equals(other) <==> position.Equals(other.position)
    {
      position == other.position
    }

    /** `Display for MyCell`: one glyph between two spaces. */
    function Display(): (s: string)
      ensures |s| == 3 && s[0] == ' ' && s[2] == ' '
      ensures s[1] == '5' <==> IsVisited() && walk
      ensures s[1] == ' ' <==> IsVisited() && !walk
      ensures s[1] == '1' <==> IsWall()
      ensures s[1] == '0' <==> !IsVisited() && !IsWall()
    {
      " " + (if IsVisited() then (if walk then "5" else " ") else (if IsWall() then "1" else "0")) + " "
    }
  }

  /** The type byte cannot say both "visited" and "wall". */
  lemma VisitedIsNotWall(c: MyCell)
    ensures !(c.IsVisited() && c.IsWall())
  {
  }

  /** `cmp(a, b)` is the reverse of `cmp(b, a)`. */
  lemma CmpAntisymmetric(a: MyCell, b: MyCell)
    ensures a.Cmp(b) == b.Cmp(a).Reverse()
  {
  }

  /** The order is transitive, so every finite frontier has a maximum. */
  lemma CmpTransitive(a: MyCell, b: MyCell, c: MyCell)
    ensures a.Cmp(b) != Less && b.Cmp(c) != Less ==> a.Cmp(c) != Less
  {
  }

  /**
   * A witness of documented behaviour: the order and the equality disagree,
   * since two cells with the same costs at different positions compare
   * `Equal` but are not equal.
   */
  lemma CmpEqualIsNotEquals()
    ensures MyCell.New(0, 0, OPEN).Cmp(MyCell.New(0, 1, OPEN)) == Equal
    ensures !MyCell.New(0, 0, OPEN).Equals(MyCell.New(0, 1, OPEN))
  {
  }
}
