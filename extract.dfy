/**
 * From image to grid (src/backend/mod.rs): the bounding box of the wall
 * pixels (`get_top_corner`, `get_bottom_corner`), the crop to that box, and
 * `get_matrix`, which turns every pixel of the cropped image into a cell.
 */
module Extract {
  import opened Common
  import opened Positions
  import opened Cells
  import opened Matrices
  import opened Pixels

  /** Row `y` holds a wall pixel. */
  ghost predicate RowHasBlack(img: Image, y: nat)
    requires img.Valid() && y < img.height
  {
    exists x | 0 <= x < img.width :: IsBlack(img.Pixel(x, y))
  }

  /** Column `x` holds a wall pixel. */
  ghost predicate ColHasBlack(img: Image, x: nat)
    requires img.Valid() && x < img.width
  {
    exists y | 0 <= y < img.height :: IsBlack(img.Pixel(x, y))
  }

  /** The image holds a wall pixel somewhere. */
  ghost predicate AnyBlack(img: Image)
    requires img.Valid()
  {
    exists x, y | 0 <= x < img.width && 0 <= y < img.height :: IsBlack(img.Pixel(x, y))
  }

  /** `r` is the first row holding a wall pixel, or 0 when there is none. */
  ghost predicate TopRow(img: Image, r: nat)
    requires img.Valid()
  {
    if AnyBlack(img) then
      r < img.height && RowHasBlack(img, r) && forall y | 0 <= y < r :: !RowHasBlack(img, y)
    else
      r == 0
  }

  /** `c` is the first column holding a wall pixel, or 0 when there is none. */
  ghost predicate TopCol(img: Image, c: nat)
    requires img.Valid()
  {
    if AnyBlack(img) then
      c < img.width && ColHasBlack(img, c) && forall x | 0 <= x < c :: !ColHasBlack(img, x)
    else
      c == 0
  }

  /** `r` is one past the last row holding a wall pixel, or 1 when there is none. */
  ghost predicate BottomRow(img: Image, r: nat)
    requires img.Valid()
  {
    if AnyBlack(img) then
      1 <= r <= img.height && RowHasBlack(img, r - 1) && forall y | r <= y < img.height :: !RowHasBlack(img, y)
    else
      r == 1
  }

  /** `c` is one past the last column holding a wall pixel, or 1 when there is none. */
  ghost predicate BottomCol(img: Image, c: nat)
    requires img.Valid()
  {
    if AnyBlack(img) then
      1 <= c <= img.width && ColHasBlack(img, c - 1) && forall x | c <= x < img.width :: !ColHasBlack(img, x)
    else
      c == 1
  }

  ghost predicate IsTopCorner(img: Image, t: Position)
    requires img.Valid()
  {
    TopRow(img, t.y) && TopCol(img, t.x)
  }

  ghost predicate IsBottomCorner(img: Image, b: Position)
    requires img.Valid()
  {
    BottomRow(img, b.y) && BottomCol(img, b.x)
  }

  /** Clean rows everywhere mean a clean image. */
  lemma NoBlackRow(img: Image)
    requires img.Valid()
    requires forall y | 0 <= y < img.height :: !RowHasBlack(img, y)
    ensures !AnyBlack(img)
  {
    if AnyBlack(img) {
      var x, y :| 0 <= x < img.width && 0 <= y < img.height && IsBlack(img.Pixel(x, y));
      assert RowHasBlack(img, y);
    }
  }

  /** Clean columns everywhere mean a clean image. */
  lemma NoBlackCol(img: Image)
    requires img.Valid()
    requires forall x | 0 <= x < img.width :: !ColHasBlack(img, x)
    ensures !AnyBlack(img)
  {
    if AnyBlack(img) {
      var x, y :| 0 <= x < img.width && 0 <= y < img.height && IsBlack(img.Pixel(x, y));
      assert ColHasBlack(img, x);
    }
  }

  /**
   * `get_top_corner`: the first row with a wall pixel, scanning rows top
   * down, and the first column with one, scanning columns left to right;
   * each stays 0 when the scan finds none.
   */
  method GetTopCorner(img: Image) returns (t: Position)
    requires img.Valid()
    ensures IsTopCorner(img, t)
  {
    var topx, topy := 0, 0;
    ghost var found := false;
    var y := 0;
    label rows:
    while y < img.height
      invariant y <= img.height && topy == 0 && !found
      invariant forall y' | 0 <= y' < y :: !RowHasBlack(img, y')
    {
      var x := 0;
      while x < img.width
        invariant x <= img.width
        invariant forall x' | 0 <= x' < x :: !IsBlack(img.Pixel(x', y))
      {
        if IsBlack(img.Pixel(x, y)) {
          assert RowHasBlack(img, y) && AnyBlack(img);
          topy, found := y, true;
          break rows;
        }
        x := x + 1;
      }
      y := y + 1;
    }
    if !found {
      NoBlackRow(img);
    }
    assert TopRow(img, topy);
    found := false;
    var x := 0;
    label columns:
    while x < img.width
      invariant x <= img.width && topx == 0 && !found
      invariant forall x' | 0 <= x' < x :: !ColHasBlack(img, x')
    {
      var y := 0;
      while y < img.height
        invariant y <= img.height
        invariant forall y' | 0 <= y' < y :: !IsBlack(img.Pixel(x, y'))
      {
        if IsBlack(img.Pixel(x, y)) {
          assert ColHasBlack(img, x) && AnyBlack(img);
          topx, found := x, true;
          break columns;
        }
        y := y + 1;
      }
      x := x + 1;
    }
    if !found {
      NoBlackCol(img);
    }
    t := Position(topy, topx);
  }

  /**
   * `get_bottom_corner`: one past the last row with a wall pixel, scanning
   * rows bottom up, and one past the last column with one, scanning columns
   * right to left; each is 1 when the scan finds none.
   */
  method GetBottomCorner(img: Image) returns (b: Position)
    requires img.Valid()
    ensures IsBottomCorner(img, b)
  {
    var bottomx, bottomy := 0, 0;
    ghost var found := false;
    var y: nat := img.height;
    label rows:
    while y > 0
      invariant y <= img.height && bottomy == 0 && !found
      invariant forall y' | y <= y' < img.height :: !RowHasBlack(img, y')
    {
      y := y - 1;
      var x: nat := img.width;
      while x > 0
        invariant x <= img.width
        invariant forall x' | x <= x' < img.width :: !IsBlack(img.Pixel(x', y))
      {
        x := x - 1;
        if IsBlack(img.Pixel(x, y)) {
          assert RowHasBlack(img, y) && AnyBlack(img);
          bottomy, found := y, true;
          break rows;
        }
      }
    }
    if !found {
      NoBlackRow(img);
    }
    assert BottomRow(img, bottomy + 1);
    found := false;
    var x: nat := img.width;
    label columns:
    while x > 0
      invariant x <= img.width && bottomx == 0 && !found
      invariant forall x' | x <= x' < img.width :: !ColHasBlack(img, x')
    {
      x := x - 1;
      var y: nat := img.height;
      while y > 0
        invariant y <= img.height
        invariant forall y' | y <= y' < img.height :: !IsBlack(img.Pixel(x, y'))
      {
        y := y - 1;
        if IsBlack(img.Pixel(x, y)) {
          assert ColHasBlack(img, x) && AnyBlack(img);
          bottomx, found := x, true;
          break columns;
        }
      }
    }
    if !found {
      NoBlackCol(img);
    }
    b := Position(bottomy + 1, bottomx + 1);
  }

  /**
   * The two corners span a non-empty box inside a non-empty image, and every
   * wall pixel lies inside it: the crop loses no wall.
   */
  lemma CornersBox(img: Image, t: Position, b: Position)
    requires img.Valid() && img.width >= 1 && img.height >= 1
    requires IsTopCorner(img, t) && IsBottomCorner(img, b)
    ensures t.y < b.y <= img.height && t.x < b.x <= img.width
    ensures forall x, y | 0 <= x < img.width && 0 <= y < img.height && IsBlack(img.Pixel(x, y)) ::
      t.x <= x < b.x && t.y <= y < b.y
  {
    forall x, y | 0 <= x < img.width && 0 <= y < img.height && IsBlack(img.Pixel(x, y))
      ensures t.x <= x < b.x && t.y <= y < b.y
    {
      assert RowHasBlack(img, y) && ColHasBlack(img, x);
    }
    if AnyBlack(img) {
      var x, y :| 0 <= x < img.width && 0 <= y < img.height && IsBlack(img.Pixel(x, y));
      assert t.x <= x < b.x && t.y <= y < b.y;
    }
  }

  /**
   * `image.view(left, top, w, h).to_image()`: the `w` by `h` sub-image whose
   * top-left pixel is `(left, top)` of `img`.
   */
  function Crop(img: Image, left: nat, top: nat, w: nat, h: nat): (sub: Image)
    requires img.Valid() && left + w <= img.width && top + h <= img.height
    ensures sub.Valid() && sub.width == w && sub.height == h
    ensures forall x, y | 0 <= x < w && 0 <= y < h :: sub.Pixel(x, y) == img.Pixel(left + x, top + y)
  {
    Image(w, h, seq(h, y requires 0 <= y < h => seq(w, x requires 0 <= x < w => img.Pixel(left + x, top + y))))
  }

  /**
   * `get_matrix`: a matrix of the image's size whose cell at `(y, x)` stores
   * its own coordinates and the type of pixel `(x, y)`.
   */
  method GetMatrix(img: Image) returns (m: Matrix)
    requires img.Valid()
    ensures fresh(m) && m.Valid() && m.ySize == img.height && m.xSize == img.width
    ensures forall y, x | 0 <= y < img.height && 0 <= x < img.width ::
      m.cells[y][x] == MyCell.New(y, x, CellType(img, x, y))
    ensures Placed(m.cells)
  {
    m := new Matrix(img.width, img.height);
    var y := 0;
    while y < img.height
      invariant y <= img.height
      invariant m.Valid() && m.ySize == img.height && m.xSize == img.width
      invariant forall y', x' | 0 <= y' < y && 0 <= x' < img.width ::
        m.cells[y'][x'] == MyCell.New(y', x', CellType(img, x', y'))
    {
      var x := 0;
      while x < img.width
        invariant x <= img.width
        invariant m.Valid() && m.ySize == img.height && m.xSize == img.width
        invariant forall y', x' | 0 <= y' < y && 0 <= x' < img.width ::
          m.cells[y'][x'] == MyCell.New(y', x', CellType(img, x', y'))
        invariant forall x' | 0 <= x' < x :: m.cells[y][x'] == MyCell.New(y, x', CellType(img, x', y))
      {
        m.Set(y, x, MyCell.New(y, x, CellType(img, x, y)));
        x := x + 1;
      }
      y := y + 1;
    }
  }
}
