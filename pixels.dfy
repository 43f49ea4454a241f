/**
 * Pixel classification of the maze image (src/backend/mod.rs).
 *
 * An `RgbImage` is a `width` by `height` raster of three-channel pixels;
 * `get_pixel(x, y)` reads column `x` of row `y`. The tests below decide which
 * pixels are walls (black), the start marker (red) and the goal marker
 * (blue), and `test_adjecent` closes diagonal gaps between wall pixels.
 */
module Pixels {
  import opened Common
  import opened Cells

  datatype Rgb = Rgb(r: Byte, g: Byte, b: Byte)

  datatype Image = Image(width: nat, height: nat, rows: seq<seq<Rgb>>) {

    /** `height` rows of `width` pixels each. */
    ghost predicate Valid()
    {
      |rows| == height && forall y | 0 <= y < height :: |rows[y]| == width
    }

    /** `get_pixel(x, y)`: column `x`, row `y`. */
    function Pixel(x: nat, y: nat): Rgb
      requires Valid() && x < width && y < height
    {
      rows[y][x]
    }
  }

  /**
   * `test_black`: a pixel is a wall when its red channel equals another
   * channel and red or blue is at most 160 (greys up to 160 included), or
   * when one channel is below 50 and strictly brighter than both others.
   * A pixel brighter than 160 in every channel is never a wall.
   */
  predicate IsBlack(p: Rgb)
    ensures IsBlack(p) ==> p.r <= 160 || p.g <= 160 || p.b <= 160
  {
    || ((p.r == p.g || p.r == p.b) && (p.r <= 160 || p.b <= 160))
    || (p.r < 50 && p.g < p.r && p.b < p.r)
    || (p.g < 50 && p.r < p.g && p.b < p.g)
    || (p.b < 50 && p.g < p.b && p.r < p.b)
  }

  /** `test_red`: strong red with green or blue weak, so red outshines one of them. */
  predicate IsRed(p: Rgb)
    ensures IsRed(p) ==> p.r >= 150 && (p.r > p.g + 50 || p.r > p.b + 50)
  {
    p.r >= 150 && (p.g < 100 || p.b < 100)
  }

  /** `test_blue`: strong blue with red or green weak, so blue outshines one of them. */
  predicate IsBlue(p: Rgb)
    ensures IsBlue(p) ==> p.b >= 150 && (p.b > p.r + 50 || p.b > p.g + 50)
  {
    (p.r < 100 || p.g < 100) && p.b >= 150
  }

  /**
   * `test_colorus`: the cell type of a pixel; the tests are tried in the
   * order black, red, blue, so a wall wins over a marker and red over blue.
   */
  function Colorus(p: Rgb): (t: Byte)
    ensures t <= BLUE
    ensures t == WALL <==> IsBlack(p)
    ensures t == RED <==> !IsBlack(p) && IsRed(p)
    ensures t == BLUE <==> !IsBlack(p) && !IsRed(p) && IsBlue(p)
    ensures t == OPEN <==> !IsBlack(p) && !IsRed(p) && !IsBlue(p)
  {
    if IsBlack(p) then WALL
    else if IsRed(p) then RED
    else if IsBlue(p) then BLUE
    else OPEN
  }

  /** A grey pixel is a wall exactly when it is not lighter than 160. */
  lemma GreyIsBlack(v: Byte)
    ensures IsBlack(Rgb(v, v, v)) <==> v <= 160
  {
  }

  /** The pixels passing both marker tests are the bright magentas. */
  lemma RedAndBlue(p: Rgb)
    ensures IsRed(p) && IsBlue(p) <==> p.r >= 150 && p.b >= 150 && p.g < 100
  {
  }

  /** A pixel that passes both marker tests is taken for the start. */
  lemma MagentaIsStart(p: Rgb)
    requires !IsBlack(p) && IsRed(p) && IsBlue(p)
    ensures Colorus(p) == RED
  {
  }

  /**
   * A witness of documented behaviour: dark pixels are not all walls, since
   * with red the darkest channel and green and blue tied, none of the four
   * rules applies.
   */
  lemma DarkTieIsOpen()
    ensures !IsBlack(Rgb(10, 30, 30)) && Colorus(Rgb(10, 30, 30)) == OPEN
  {
  }

  /** A dark pixel whose brightest channel is unique is a wall. */
  lemma DarkWithBrightestIsBlack(p: Rgb)
    requires p.r < 50 && p.g < 50 && p.b < 50
    requires (p.g < p.r && p.b < p.r) || (p.r < p.g && p.b < p.g) || (p.g < p.b && p.r < p.b)
    ensures IsBlack(p)
  {
  }

  /**
   * `test_adjecent`: an interior pixel is turned into a wall when a wall
   * pixel lies directly above or below it and another directly left or right
   * of it, which closes the diagonal gap a path could otherwise slip through.
   * Pixels on the border are never repaired.
   */
  function Adjacent(img: Image, x: nat, y: nat): (repair: bool)
    requires img.Valid() && x < img.width && y < img.height
    ensures repair <==>
      && 0 < x && 0 < y && x + 1 < img.width && y + 1 < img.height
      && (IsBlack(img.Pixel(x, y - 1)) || IsBlack(img.Pixel(x, y + 1)))
      && (IsBlack(img.Pixel(x - 1, y)) || IsBlack(img.Pixel(x + 1, y)))
  {
    if x == 0 || y == 0 || x + 1 >= img.width || y + 1 >= img.height then
      false
    else if IsBlack(img.Pixel(x, y + 1)) && IsBlack(img.Pixel(x + 1, y)) then
      true
    else if IsBlack(img.Pixel(x, y - 1)) && IsBlack(img.Pixel(x - 1, y)) then
      true
    else if IsBlack(img.Pixel(x, y + 1)) && IsBlack(img.Pixel(x - 1, y)) then
      true
    else if IsBlack(img.Pixel(x, y - 1)) && IsBlack(img.Pixel(x + 1, y)) then
      true
    else
      false
  }

  /**
   * The type `get_matrix` gives the cell built from pixel `(x, y)`: a
   * repaired gap is a wall, any other pixel is classified by `Colorus`.
   */
  function CellType(img: Image, x: nat, y: nat): (t: Byte)
    requires img.Valid() && x < img.width && y < img.height
    ensures t <= BLUE
    ensures t == WALL <==> Adjacent(img, x, y) || IsBlack(img.Pixel(x, y))
    ensures t != WALL ==> t == Colorus(img.Pixel(x, y))
  {
    if Adjacent(img, x, y) then WALL else Colorus(img.Pixel(x, y))
  }

  /** Wall pixels stay walls; repair only ever adds walls. */
  lemma BlackIsWall(img: Image, x: nat, y: nat)
    requires img.Valid() && x < img.width && y < img.height
    requires IsBlack(img.Pixel(x, y))
    ensures CellType(img, x, y) == WALL
  {
  }

  /**
   * Two wall pixels touching only at a corner make the interior cell at the
   * other corner of their square a wall, so no diagonal step squeezes
   * between them from there.
   */
  lemma DiagonalGapClosed(img: Image, x: nat, y: nat)
    requires img.Valid() && 0 < x && 0 < y && x + 1 < img.width && y + 1 < img.height
    requires IsBlack(img.Pixel(x + 1, y)) && IsBlack(img.Pixel(x, y + 1))
    ensures CellType(img, x, y) == WALL
  {
  }
}
