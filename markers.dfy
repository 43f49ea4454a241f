/**
 * `DataHandle` and `get_data` (src/backend/mod.rs): the maze image, the
 * bounding box of its walls, the grid built from the cropped image, and the
 * placement of the red start and blue goal markers on that grid.
 *
 * Grid coordinates are image coordinates minus the top corner (`diff_x`,
 * `diff_y`). A marker pixel strictly inside the box is translated; one
 * outside it is moved onto a border line of the grid by `search_x` or
 * `search_y`.
 */
module Markers {
  import opened Common
  import opened Positions
  import opened Cells
  import opened Matrices
  import opened Pixels
  import opened Extract
  import opened Scans

  /** The wall flags of row `y` of `g`. */
  function RowWalls(g: Grid, y: nat): (ws: seq<bool>)
    requires y < |g|
    ensures |ws| == |g[y]|
    ensures forall k | 0 <= k < |ws| :: ws[k] == g[y][k].IsWall()
  {
    seq(|g[y]|, k requires 0 <= k < |g[y]| => g[y][k].IsWall())
  }

  /** The wall flags of column `x` of `g`. */
  function ColWalls(g: Grid, x: nat): (ws: seq<bool>)
    requires forall y | 0 <= y < |g| :: x < |g[y]|
    ensures |ws| == |g|
    ensures forall k | 0 <= k < |ws| :: ws[k] == g[k][x].IsWall()
  {
    seq(|g|, k requires 0 <= k < |g| => g[k][x].IsWall())
  }

  /** The cell at `(y, x)` of `g` is the one `get_matrix` builds from pixel `(x, y)` of `img`. */
  ghost predicate Built(g: Grid, img: Image, y: nat, x: nat)
    requires img.Valid() && y < img.height && x < img.width
  {
    y < |g| && x < |g[y]| && g[y][x] == MyCell.New(y, x, CellType(img, x, y))
  }

  /** Which marker a scan of the image looks for. */
  datatype Marker = Start | End

  /** `test_red` for the start, `test_blue` for the goal. */
  predicate IsMarker(m: Marker, p: Rgb)
  {
    match m
    case Start => IsRed(p)
    case End => IsBlue(p)
  }

  /** `(x, y)` is the first pixel of kind `m` in row-major order. */
  ghost predicate FirstMarker(img: Image, m: Marker, x: nat, y: nat)
    requires img.Valid()
  {
    && x < img.width && y < img.height && IsMarker(m, img.Pixel(x, y))
    && (forall y', x' | 0 <= y' < y && 0 <= x' < img.width :: !IsMarker(m, img.Pixel(x', y')))
    && (forall x' | 0 <= x' < x :: !IsMarker(m, img.Pixel(x', y)))
  }

  /** The image holds no pixel of kind `m`. */
  ghost predicate NoMarker(img: Image, m: Marker)
    requires img.Valid()
  {
    forall y, x | 0 <= y < img.height && 0 <= x < img.width :: !IsMarker(m, img.Pixel(x, y))
  }

  /** The grid coordinate of image coordinate `v` on an axis whose offset is `d`. */
  function Translate(v: nat, d: nat): nat
    requires d <= v
  {
    v - d
  }

  /** The last index of a line of `n` cells. */
  function LastIndex(n: nat): nat
    requires n >= 1
  {
    n - 1
  }

  /** The cases of `create_position`, one per test it makes, in its order. */
  datatype Side = Inside | Above | Left | Below | Right | Elsewhere

  /**
   * The case the pixel at `(xPos, yPos)` falls in, for a box with corners
   * `t` and `b`: strictly inside; above and right of its left edge; below
   * its top edge and left of it; below and left of its right edge; above
   * its bottom edge and right of it; anywhere else.
   */
  function SideOf(xPos: nat, yPos: nat, t: Position, b: Position): Side
  {
    if xPos > t.x && yPos > t.y && xPos < b.x && yPos < b.y then Inside
    else if yPos < t.y && xPos > t.x then Above
    else if yPos > t.y && xPos < t.x then Left
    else if yPos > b.y && xPos < b.x then Below
    else if yPos < b.y && xPos > b.x then Right
    else Elsewhere
  }

  class DataHandle {
    const image: Image
    const diffX: nat
    const diffY: nat
    const topCorner: Position
    const bottomCorner: Position
    const matrix: Matrix

    /** The cropped image the grid is built from. */
    ghost function Cropped(): (sub: Image)
      requires image.Valid()
      requires topCorner.x <= bottomCorner.x <= image.width && topCorner.y <= bottomCorner.y <= image.height
    {
      Crop(image, topCorner.x, topCorner.y, bottomCorner.x - topCorner.x, bottomCorner.y - topCorner.y)
    }

    /**
     * The handle `get_data` builds: the corners are those of the image, the
     * offsets are the top corner, and the grid holds one cell per pixel of
     * the box between the corners.
     */
    ghost predicate Valid()
      reads this, matrix
    {
      && Shaped()
      && IsTopCorner(image, topCorner) && IsBottomCorner(image, bottomCorner)
      && forall y, x | 0 <= y < matrix.ySize && 0 <= x < matrix.xSize :: Built(matrix.cells, Cropped(), y, x)
    }

    /**
     * The shape facts of a valid handle: the offsets are the top corner and
     * the grid is the non-empty box between the corners.
     */
    ghost predicate Shaped()
      reads this, matrix
    {
      && image.Valid() && image.width >= 1 && image.height >= 1
      && diffX == topCorner.x && diffY == topCorner.y
      && topCorner.x < bottomCorner.x <= image.width && topCorner.y < bottomCorner.y <= image.height
      && matrix.Valid()
      && matrix.xSize == bottomCorner.x - topCorner.x && matrix.ySize == bottomCorner.y - topCorner.y
    }

    constructor (image: Image, topCorner: Position, bottomCorner: Position, matrix: Matrix, ghost sub: Image)
      requires image.Valid() && image.width >= 1 && image.height >= 1
      requires IsTopCorner(image, topCorner) && IsBottomCorner(image, bottomCorner)
      requires topCorner.x < bottomCorner.x <= image.width && topCorner.y < bottomCorner.y <= image.height
      requires matrix.Valid()
      requires matrix.xSize == bottomCorner.x - topCorner.x && matrix.ySize == bottomCorner.y - topCorner.y
      requires sub == Crop(image, topCorner.x, topCorner.y, bottomCorner.x - topCorner.x, bottomCorner.y - topCorner.y)
      requires forall y, x | 0 <= y < matrix.ySize && 0 <= x < matrix.xSize :: Built(matrix.cells, sub, y, x)
      ensures Valid()
      ensures this.image == image && this.topCorner == topCorner && this.bottomCorner == bottomCorner
      ensures this.matrix == matrix
    {
      this.image := image;
      this.diffX := topCorner.x;
      this.diffY := topCorner.y;
      this.topCorner := topCorner;
      this.bottomCorner := bottomCorner;
      this.matrix := matrix;
      new;
      assert Cropped() == sub;
    }

    /** `matrix()`: a clone of the grid. */
    method CloneMatrix() returns (m: Matrix)
      requires Valid()
      ensures fresh(m) && m.Valid()
      ensures m.cells == matrix.cells && m.ySize == matrix.ySize && m.xSize == matrix.xSize
    {
      m := matrix.Clone();
    }

    /**
     * `search_x(y_pos, x_pos)`: the scan of grid row `y` from column `x`,
     * whose forward pass starts at the larger of `x` and the top corner's
     * image column.
     */
    method SearchX(y: nat, x: nat) returns (r: nat)
      requires matrix.Valid() && y < matrix.ySize
      ensures r == ScanResult(RowWalls(matrix.cells, y), x, topCorner.x)
      ensures r < matrix.xSize || r == 1
    {
      r := Scan(RowWalls(matrix.cells, y), x, topCorner.x);
      ScanResultOutcome(RowWalls(matrix.cells, y), x, topCorner.x, r);
    }

    /**
     * `search_y(y_pos, x_pos)`: the scan of grid column `x` from row `y`,
     * whose forward pass starts at the larger of `y` and the top corner's
     * image row.
     */
    method SearchY(y: nat, x: nat) returns (r: nat)
      requires matrix.Valid() && x < matrix.xSize
      ensures r == ScanResult(ColWalls(matrix.cells, x), y, topCorner.y)
      ensures r < matrix.ySize || r == 1
    {
      r := Scan(ColWalls(matrix.cells, x), y, topCorner.y);
      ScanResultOutcome(ColWalls(matrix.cells, x), y, topCorner.y, r);
    }

    /**
     * The grid position `create_position` gives the marker pixel at
     * `(xPos, yPos)`, `None` standing for the `u32` subtraction underflow
     * that aborts the program:
     * - strictly inside the box: the pixel translated by the offsets;
     * - above the box and right of its left edge: row 0, column by `search_x`;
     * - below its top edge and left of the box: column 0, row by `search_y`;
     * - below the box and left of its right edge: the last row, column by
     *   `search_x` (underflow when left of the box);
     * - above its bottom edge and right of the box: the last column, row by
     *   `search_y` (underflow when above the box);
     * - anywhere else: `(0, 0)`.
     */
    ghost predicate Created(xPos: nat, yPos: nat, r: Option<Position>)
      reads this, matrix
      requires Shaped()
    {
      match SideOf(xPos, yPos, topCorner, bottomCorner)
      case Inside => r == Some(Position(Translate(yPos, diffY), Translate(xPos, diffX)))
      case Above => r == Some(Position(0, ScanResult(RowWalls(matrix.cells, 0), Translate(xPos, diffX), topCorner.x)))
      case Left => r == Some(Position(ScanResult(ColWalls(matrix.cells, 0), Translate(yPos, diffY), topCorner.y), 0))
      case Below =>
        if xPos < diffX then r == None
        else
          var y := LastIndex(matrix.ySize);
          r == Some(Position(y, ScanResult(RowWalls(matrix.cells, y), Translate(xPos, diffX), topCorner.x)))
      case Right =>
        if yPos < diffY then r == None
        else
          var x := LastIndex(matrix.xSize);
          r == Some(Position(ScanResult(ColWalls(matrix.cells, x), Translate(yPos, diffY), topCorner.y), x))
      case Elsewhere => r == Some(Position(0, 0))
    }

    /**
     * `create_position(x_pos, y_pos)`. Every placement lies in the grid,
     * except that a scan may fall back to 1 past a grid one cell wide or
     * high; the program aborts only for markers left of or above the box.
     */
    method CreatePosition(xPos: nat, yPos: nat) returns (r: Option<Position>)
      requires Shaped()
      ensures Created(xPos, yPos, r)
      ensures r == None ==> xPos < topCorner.x || yPos < topCorner.y
      ensures xPos >= topCorner.x && yPos >= topCorner.y ==> r.Some?
      ensures r.Some? ==> (r.value.y < matrix.ySize || r.value.y == 1) && (r.value.x < matrix.xSize || r.value.x == 1)
    {
      match SideOf(xPos, yPos, topCorner, bottomCorner)
      case Inside =>
        r := Some(Position(Translate(yPos, diffY), Translate(xPos, diffX)));
      case Above =>
        var c := SearchX(0, Translate(xPos, diffX));
        r := Some(Position(0, c));
      case Left =>
        var c := SearchY(Translate(yPos, diffY), 0);
        r := Some(Position(c, 0));
      case Below =>
        if xPos < diffX {
          return None;
        }
        var c := SearchX(LastIndex(matrix.ySize), Translate(xPos, diffX));
        r := Some(Position(LastIndex(matrix.ySize), c));
      case Right =>
        if yPos < diffY {
          return None;
        }
        var c := SearchY(Translate(yPos, diffY), LastIndex(matrix.xSize));
        r := Some(Position(c, LastIndex(matrix.xSize)));
      case Elsewhere =>
        r := Some(Position(0, 0));
    }

    /**
     * `get_start` and `get_end`: the placement of the first marker pixel in
     * row-major order, or `(0, 0)` when the image has none.
     */
    method FindMarker(m: Marker) returns (r: Option<Position>)
      requires Shaped()
      ensures NoMarker(image, m) ==> r == Some(Position(0, 0))
      ensures !NoMarker(image, m) ==> exists x, y :: FirstMarker(image, m, x, y) && Created(x, y, r)
    {
      var y := 0;
      while y < image.height
        invariant y <= image.height
        invariant forall y', x' | 0 <= y' < y && 0 <= x' < image.width :: !IsMarker(m, image.Pixel(x', y'))
      {
        var x := 0;
        while x < image.width
          invariant x <= image.width
          invariant forall x' | 0 <= x' < x :: !IsMarker(m, image.Pixel(x', y))
        {
          if IsMarker(m, image.Pixel(x, y)) {
            assert FirstMarker(image, m, x, y);
            r := CreatePosition(x, y);
            return;
          }
          x := x + 1;
        }
        y := y + 1;
      }
      r := Some(Position(0, 0));
    }

    /** `get_start`: the placement of the first red pixel. */
    method GetStart() returns (r: Option<Position>)
      requires Shaped()
      ensures NoMarker(image, Start) ==> r == Some(Position(0, 0))
      ensures !NoMarker(image, Start) ==> exists x, y :: FirstMarker(image, Start, x, y) && Created(x, y, r)
    {
      r := FindMarker(Start);
    }

    /** `get_end`: the placement of the first blue pixel. */
    method GetEnd() returns (r: Option<Position>)
      requires Shaped()
      ensures NoMarker(image, End) ==> r == Some(Position(0, 0))
      ensures !NoMarker(image, End) ==> exists x, y :: FirstMarker(image, End, x, y) && Created(x, y, r)
    {
      r := FindMarker(End);
    }
  }

  /**
   * A marker strictly inside the box lands on the grid cell that
   * `write_image` maps back to the same pixel, away from the grid's first row
   * and column, and that cell was built from that very pixel.
   */
  lemma CreatedInside(d: DataHandle, xPos: nat, yPos: nat, r: Option<Position>)
    requires d.Valid() && d.Created(xPos, yPos, r)
    requires d.topCorner.x < xPos < d.bottomCorner.x && d.topCorner.y < yPos < d.bottomCorner.y
    ensures r.Some?
    ensures r.value.x + d.diffX == xPos && r.value.y + d.diffY == yPos
    ensures 1 <= r.value.x < d.matrix.xSize && 1 <= r.value.y < d.matrix.ySize
    ensures d.Cropped().Pixel(r.value.x, r.value.y) == d.image.Pixel(xPos, yPos)
    ensures d.matrix.cells[r.value.y][r.value.x] ==
      MyCell.New(r.value.y, r.value.x, CellType(d.Cropped(), r.value.x, r.value.y))
  {
    assert Built(d.matrix.cells, d.Cropped(), r.value.y, r.value.x);
  }

  /**
   * `get_data`: the corners of the image's walls, the grid of the cropped
   * image, and the handle holding them (the start and end fields stay
   * `(0, 0)` and are not part of the model).
   */
  method GetData(img: Image) returns (d: DataHandle)
    requires img.Valid() && img.width >= 1 && img.height >= 1
    ensures fresh(d) && fresh(d.matrix) && d.Valid() && d.image == img
  {
    var t := GetTopCorner(img);
    var b := GetBottomCorner(img);
    CornersBox(img, t, b);
    var sub := Crop(img, t.x, t.y, b.x - t.x, b.y - t.y);
    var m := GetMatrix(sub);
    assert forall y, x | 0 <= y < m.ySize && 0 <= x < m.xSize :: Built(m.cells, sub, y, x);
    d := new DataHandle(img, t, b, m, sub);
  }
}
