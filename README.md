# AStar-rust maze solver — a Dafny model

AStar-rust reads a picture of a maze and solves it. Dark pixels are walls, a
red pixel marks the start and a blue pixel marks the goal. The program
finds the bounding box of the walls and crops the image to it. It turns
every pixel of the crop into a grid cell, closing diagonal gaps between
walls as it goes. It places the two markers on the grid and runs a
best-first (A*-style) search over 8-connected moves, with the Chebyshev
distance as the heuristic. Finally it walks back along the recorded
parents to get the path.

This project models that core in Dafny and proves properties of the model:

- `common.dfy` (`Common`): `Option`, the `Byte` range, `Abs`/`Max`/`Min`.
- `positions.dfy` (`Positions`): `Position` (`src/cell/cell.rs`), its
  `i32`-cast distance, the Chebyshev metric and king's-move walks.
- `cells.dfy` (`Cells`): `MyCell` (`src/cell/mod.rs`) as a value type with
  its setters, the heap order `cmp`, `eq` and `Display`.
- `matrices.dfy` (`Matrices`): the class `Matrix` (`src/backend/matrix.rs`).
  It holds the grid as a `seq<seq<MyCell>>` field that the mutators
  reassign. It also covers indexing and `get_neighbours` with its eight
  bounds tests.
- `pixels.dfy` (`Pixels`): the pixel tests `test_black`, `test_red`,
  `test_blue`, `test_colorus` and `test_adjecent`.
- `extract.dfy` (`Extract`): `get_top_corner`, `get_bottom_corner`, the
  crop done in `get_data`, and `get_matrix`.
- `scans.dfy` (`Scans`): the edge scan shared by `search_x` and
  `search_y`, on the wall flags of one grid line.
- `markers.dfy` (`Markers`): the class `DataHandle`:
  - `create_position`, `search_x` and `search_y`;
  - `get_start` and `get_end`;
  - `get_data` (without its file reading).
- `search.dfy` (`Pathfinder`): `find_shortest`, `heuristic` and
  `get_parents` (`src/djikstra/mod.rs`).

In a few places the code does something other than what one would expect
from a textbook description. The model follows the code:

- `get_neighbours` lists a neighbour in the row above only when the cell's
  row is at least 2 (`test_y - 1 > 0`). It lists a diagonal neighbour in
  the column to the left only when the cell's column is at least 2. The
  west neighbour is guarded by a wrapping `usize` cast. Row 0 is therefore
  never entered from below (`Matrices.RowZeroOnlySideways`).
- `test_black`'s second rule accepts a dark pixel whose darkest-looking
  channel is actually strictly greater than the other two. A dark pixel
  with two equal bright channels, such as (10, 30, 30), is open
  (`Pixels.DarkTieIsOpen`).
- `search_x`/`search_y` start the forward pass at
  `max(pos, top_corner)`. There a grid coordinate is compared with an
  image coordinate of the top corner. The fallback result 1 lies outside a
  grid one cell wide or high.
- `find_shortest` stops as soon as the goal is relaxed, not when it is
  popped. The specification functions `Pathfinder.RelaxOne` and
  `Pathfinder.RelaxAll` state what one pass and the whole neighbour loop
  compute, on grid values; the step cost and the estimate there are the
  Chebyshev distance, which equals the source's `i32` computations for
  coordinates below 2^31. The start's clone enters the frontier visited at cost 0, but the
  start's grid cell is left unvisited, so a neighbour can later relax it.
- The matrix indexing asserts `y < y_size || x < x_size`. The `Vec`
  indexing behind it then requires both, so the model requires both.

## Model

| member | source | states |
|---|---|---|
| Positions.Position.Distance | src/cell/cell.rs:26-28 | for coordinates below 2^31 the `i32`-cast distance is the Chebyshev distance: it bounds both coordinate differences and equals one of them |
| Positions.Position.Equals | src/cell/cell.rs:31-35 | component-wise equality holds exactly for equal positions |
| Positions.ChebyshevSymmetric | src/cell/cell.rs:26-28 | the distance is symmetric |
| Positions.ChebyshevZero | src/cell/cell.rs:26-28 | the distance is 0 exactly for equal positions |
| Positions.ChebyshevBounds | src/cell/cell.rs:26-28 | the distance lies between the larger coordinate difference and their sum |
| Positions.ChebyshevTriangle | src/cell/cell.rs:26-28 | the distance obeys the triangle inequality |
| Positions.WalkBound | src/cell/cell.rs:26-28 | a walk of n king's moves covers a distance of at most n |
| Cells.MyCell.IsVisited | src/cell/mod.rs:50-52 | type 4 means visited, and a visited cell is never a wall |
| Cells.MyCell.IsWall | src/cell/mod.rs:86-88 | type 1 means a wall, which is not the visited type |
| Cells.MyCell.Combined | src/cell/mod.rs:78-80 | the priority key is at least the cost and at least the estimate, and equals the cost exactly when the estimate is 0 |
| Cells.MyCell.New | src/cell/mod.rs:19-28 | a new cell holds its coordinates and type, cost and estimate 0, no parent, no walk flag; it is a wall iff the type is 1 |
| Cells.MyCell.SetVisited | src/cell/mod.rs:46-48 | the type becomes 4 (visited) or 0, so the cell is no longer a wall or marker; every other field is kept |
| Cells.MyCell.SetWalk | src/cell/mod.rs:42-44 | only the walk flag changes |
| Cells.MyCell.SetParent | src/cell/mod.rs:54-56 | the parent becomes the argument's coordinates; nothing else changes |
| Cells.MyCell.SetDistance | src/cell/mod.rs:62-64 | only the cost changes |
| Cells.MyCell.SetHeuristics | src/cell/mod.rs:70-72 | only the estimate changes |
| Cells.MyCell.Cmp | src/cell/mod.rs:121-126 | Greater iff smaller combined cost, or equal combined cost and larger distance; Less and Equal likewise |
| Cells.MyCell.Equals | src/cell/mod.rs:130-134 | cells are equal iff their positions are |
| Cells.MyCell.Display | src/cell/mod.rs:97-113 | three characters: '5' for a visited cell on the walk, ' ' for another visited cell, '1' for a wall, '0' otherwise |
| Cells.VisitedIsNotWall | src/cell/mod.rs:46-52 | no cell is both visited and a wall |
| Cells.CmpAntisymmetric | src/cell/mod.rs:121-126 | cmp(a, b) is the reverse of cmp(b, a) |
| Cells.CmpTransitive | src/cell/mod.rs:121-126 | "not less" is transitive |
| Cells.CmpEqualIsNotEquals | src/cell/mod.rs:121-134 | witness: the order and the equality disagree, as distinct positions can compare Equal |
| Matrices.Matrix.constructor | src/backend/matrix.rs:16-22 | a y_size by x_size grid of `new(0, 0, 0)` cells with those sizes |
| Matrices.Matrix.Get | src/backend/matrix.rs:78-96 | in a grid whose cells sit at their own coordinates, the cell read at (y, x) is the one at position (y, x) |
| Matrices.Matrix.At | src/backend/matrix.rs:107-116 | indexing by a position reads row y, column x |
| Matrices.Matrix.Set | src/backend/matrix.rs:98-105 | a write through `IndexMut` replaces that one cell and no other |
| Matrices.Matrix.Put | src/backend/matrix.rs:118-125 | a write through `IndexMut<&Position>` replaces that one cell |
| Matrices.Matrix.Clone | src/backend/matrix.rs:8-13 | a fresh matrix with the same cells and sizes |
| Matrices.Move | src/backend/matrix.rs:40-63 | each bounds test that passes reads an in-grid king's move of the matching rank |
| Matrices.ListedIsTried | src/backend/matrix.rs:40-63 | every neighbour allowed by the guards passes its bounds test |
| Matrices.RowZeroOnlySideways | src/backend/matrix.rs:55-63 | row 0 is listed only as a neighbour of a cell in row 0 |
| Matrices.ListedAwayFromTopLeft | src/backend/matrix.rs:40-63 | every in-grid king's move into row ≥ 1 and column ≥ 1 is listed |
| Matrices.PushListed | src/backend/matrix.rs:40-63 | appending the neighbour of rank k to a list of the listed neighbours below rank k gives the list below rank k + 1 |
| Matrices.SkipRank | src/backend/matrix.rs:40-63 | a failed bounds test leaves the list complete one rank further |
| Matrices.AllListed | src/backend/matrix.rs:32-66 | once all ranks are tried, the list has at most 8 distinct entries, all listed neighbours, and every listed neighbour is in it |
| Matrices.ListedUpToStep | src/backend/matrix.rs:40-63 | the test of rank r − 1 turns the exact list of listed neighbours below rank r − 1 into the one below rank r |
| Matrices.ListedUpToBelow | src/backend/matrix.rs:40-63 | after the tests of the ranks below r, the pushed positions are exactly the listed neighbours of rank below r, in increasing rank |
| Matrices.Neighbours | src/backend/matrix.rs:32-66 | the listed positions: at most 8, every listed neighbour exactly once, in strictly increasing rank (south-west, south, south-east, west, east, north-west, north, north-east) |
| Matrices.NeighbourCells | src/backend/matrix.rs:32-66 | each copy read at a listed position is the grid's cell there |
| Matrices.Matrix.TryMove | src/backend/matrix.rs:40-63 | one bounds test: the copies become the cells at the positions pushed by the tests up to this rank, and the next rank is returned |
| Matrices.Matrix.GetNeighbours | src/backend/matrix.rs:32-66 | the copies are the cells at `Neighbours`, in that order: at most 8, every listed neighbour once, by strictly increasing rank as the source pushes them |
| Pixels.IsBlack | src/backend/mod.rs:332-347 | a pixel brighter than 160 in every channel is never black |
| Pixels.IsRed | src/backend/mod.rs:349-355 | a red pixel has red at least 150 and more than 50 above green or above blue |
| Pixels.IsBlue | src/backend/mod.rs:357-363 | a blue pixel has blue at least 150 and more than 50 above red or above green |
| Pixels.Colorus | src/backend/mod.rs:288-299 | type 1 iff black; 2 iff red and not black; 3 iff blue and neither; 0 otherwise |
| Pixels.GreyIsBlack | src/backend/mod.rs:332-347 | a grey pixel is black iff its value is at most 160 |
| Pixels.RedAndBlue | src/backend/mod.rs:349-363 | a pixel passes both marker tests iff red and blue are ≥ 150 and green < 100 |
| Pixels.MagentaIsStart | src/backend/mod.rs:288-299 | a pixel that is not black and passes both marker tests becomes the start (a black one, such as (155, 50, 155), is a wall) |
| Pixels.DarkTieIsOpen | src/backend/mod.rs:332-347 | witness: the dark pixel (10, 30, 30) is not a wall |
| Pixels.DarkWithBrightestIsBlack | src/backend/mod.rs:332-347 | a dark pixel with a unique brightest channel is a wall |
| Pixels.Adjacent | src/backend/mod.rs:301-330 | an interior pixel is repaired iff a black pixel is above or below it and another left or right of it; border pixels never are |
| Pixels.CellType | src/backend/mod.rs:266-286 | a cell is a wall iff its pixel is black or repaired; otherwise its type is the pixel's colour class |
| Pixels.BlackIsWall | src/backend/mod.rs:266-286 | black pixels always become walls |
| Pixels.DiagonalGapClosed | src/backend/mod.rs:301-330 | two walls touching only at a corner close the interior cell at the other corner |
| Extract.GetTopCorner | src/backend/mod.rs:212-237 | the first row and first column holding a black pixel, each 0 if none |
| Extract.GetBottomCorner | src/backend/mod.rs:239-264 | one past the last row and last column holding a black pixel, each 1 if none |
| Extract.CornersBox | src/backend/mod.rs:212-264 | in a non-empty image the corners span a non-empty box and every black pixel lies inside it |
| Extract.Crop | src/backend/mod.rs:186-193 | the crop's pixel (x, y) is the image's pixel (left + x, top + y) |
| Extract.GetMatrix | src/backend/mod.rs:266-286 | a fresh grid of the image's size whose cell (y, x) is `new(y, x, type of pixel (x, y))` |
| Scans.OpenCount | src/backend/mod.rs:112-140 | a pass counts at most one cell per cell it crosses |
| Scans.OpenCountMonotone | src/backend/mod.rs:112-140 | the count never drops as a pass goes on |
| Scans.OpenCountNeedsWall | src/backend/mod.rs:112-140 | nothing is counted before a wall is met |
| Scans.FifthUnique | src/backend/mod.rs:112-140 | a pass reaches its fifth counted cell at one index only |
| Scans.FifthFound | src/backend/mod.rs:112-140 | a pass that counts five cells reaches a fifth at some index |
| Scans.FifthIffFive | src/backend/mod.rs:112-140 | a pass returns iff it counts at least five cells |
| Scans.Backward | src/backend/mod.rs:128-138 | the backward pass reads cells min(pos, size) − 1 down to 0 |
| Scans.ForwardOutcome | src/backend/mod.rs:116-127 | a forward fifth cell decides the scan |
| Scans.BackwardOutcome | src/backend/mod.rs:127-138 | failing forward, a backward fifth cell decides it |
| Scans.FallbackOutcome | src/backend/mod.rs:112-140 | failing both passes, the scan gives 1 |
| Scans.ScanDeterministic | src/backend/mod.rs:112-140 | the scan has exactly one outcome |
| Scans.ScanTotal | src/backend/mod.rs:112-140 | every scan has an outcome: a forward fifth cell, else a backward one, else 1 |
| Scans.ScanResultOutcome | src/backend/mod.rs:112-140 | an index is a scan outcome exactly when it is the scan result |
| Scans.ScanLandsOnOpen | src/backend/mod.rs:112-140 | the result is 1, or an open cell at or after the forward start or before pos |
| Scans.ForwardWins | src/backend/mod.rs:116-126 | when a wall and then five open cells follow the forward start, the result is the forward pass's |
| Scans.NoWallFallback | src/backend/mod.rs:112-140 | a line without walls always gives 1 |
| Scans.ForwardPass | src/backend/mod.rs:116-126 | the forward loop returns the index of its fifth counted cell, or reports none with whether a wall was met |
| Scans.BackwardPass | src/backend/mod.rs:127-138 | the backward loop, with a fresh count but the remembered wall, returns its fifth counted cell, or none |
| Scans.Scan | src/backend/mod.rs:112-140 | the result is the unique scan outcome and lies in the line or is 1 |
| Markers.RowWalls | src/backend/mod.rs:117-125 | the wall flags of one grid row, read by `search_x` |
| Markers.ColWalls | src/backend/mod.rs:147-155 | the wall flags of one grid column, read by `search_y` |
| Markers.DataHandle.constructor | src/backend/mod.rs:195-206 | the handle holds the image, the corners, offsets equal to the top corner, and the grid of the crop |
| Markers.DataHandle.CloneMatrix | src/backend/mod.rs:28-30 | a fresh copy of the grid |
| Markers.DataHandle.SearchX | src/backend/mod.rs:112-140 | the result is the one scan outcome of row y from x, with the forward pass from max(x, top corner x); it lies in the row or is 1 |
| Markers.DataHandle.SearchY | src/backend/mod.rs:142-170 | the result is the one scan outcome of column x from y, with the forward pass from max(y, top corner y); it lies in the column or is 1 |
| Markers.DataHandle.CreatePosition | src/backend/mod.rs:72-110 | the five placement rules; underflow only for markers left of or above the box; every placement lies in the grid or uses the fallback 1 |
| Markers.DataHandle.FindMarker | src/backend/mod.rs:50-70 | the placement of the first marker pixel in row-major order, or (0, 0) |
| Markers.DataHandle.GetStart | src/backend/mod.rs:50-59 | the placement of the first red pixel, or (0, 0) |
| Markers.DataHandle.GetEnd | src/backend/mod.rs:61-70 | the placement of the first blue pixel, or (0, 0) |
| Markers.CreatedInside | src/backend/mod.rs:72-83 | a marker strictly inside the box maps to an interior grid cell built from that very pixel, and back |
| Markers.GetData | src/backend/mod.rs:173-210 | a fresh handle with the image's corners and the grid of the cropped image |
| Pathfinder.Heuristic | src/djikstra/mod.rs:56-61 | the estimate is the Chebyshev distance, the same as `Position::distance` |
| Pathfinder.ExistsMaximum | src/djikstra/mod.rs:19-20 | every non-empty frontier has a maximum to pop |
| Pathfinder.MaximumFirst | src/djikstra/mod.rs:19-20 | the pop takes a least combined cost, and the largest distance among ties |
| Pathfinder.UnsearchedIsLinked | src/djikstra/mod.rs:7-17 | a grid with no visited cell and no parent meets the search invariant |
| Pathfinder.RowWeightUpdate | src/djikstra/mod.rs:19-46 | replacing one cell changes a row's weight by the cells' difference |
| Pathfinder.GridWeightUpdate | src/djikstra/mod.rs:19-46 | replacing one cell changes the grid's weight by the cells' difference |
| Pathfinder.Relaxed | src/djikstra/mod.rs:31-34 | a relaxed cell is visited, with the new cost, estimate and parent, at the same position |
| Pathfinder.RelaxLinked | src/djikstra/mod.rs:24-34 | a relaxation keeps every parent link consistent |
| Pathfinder.RelaxFrontier | src/djikstra/mod.rs:24-38 | a relaxation keeps the frontier entries valid, the pushed copy included |
| Pathfinder.RelaxMeasure | src/djikstra/mod.rs:26-34 | a relaxation visits a new cell or lowers a visited cell's cost |
| Pathfinder.RelaxImproves | src/djikstra/mod.rs:26-34 | relaxing an open cell that is unvisited or dearer improves the grid: no wall cell changes in any field, and the relaxed cell is visited at the new, lower cost |
| Pathfinder.ImprovedTransitive | src/djikstra/mod.rs:19-46 | improvements compose, so the whole search improves its input grid |
| Pathfinder.ImprovedKeeps | src/djikstra/mod.rs:19-46 | an improved grid keeps every wall cell in all its fields, every wall flag, every position, and every cell it left unvisited |
| Pathfinder.RelaxOneImproves | src/djikstra/mod.rs:24-38 | one pass improves the grid and only adds to the frontier; it hits exactly when it relaxes the goal, pushes every changed cell otherwise, and leaves an open neighbour visited at a cost at most that of the step |
| Pathfinder.RelaxAllStep | src/djikstra/mod.rs:21-45 | the loop from the k-th copy on is the k-th pass, then, unless it hit the goal, the loop from the next copy on |
| Pathfinder.RelaxAllImproves | src/djikstra/mod.rs:21-45 | the neighbour loop improves the grid, only adds to the frontier, pushes every changed cell unless it hit the goal, and hits only with the goal visited |
| Pathfinder.RelaxAllReaches | src/djikstra/mod.rs:21-45 | unless it hit the goal, the neighbour loop leaves every open copy's cell visited at a cost at most that of the step through `current` |
| Pathfinder.ClosedKept | src/djikstra/mod.rs:19-46 | improving the grid keeps a closed cell closed |
| Pathfinder.NeighbourCopies | src/djikstra/mod.rs:21 | the copies `get_neighbours` returns sit at listed positions and carry their cells' wall flags |
| Pathfinder.ExpandCloses | src/djikstra/mod.rs:21-45 | expanding a cell without hitting the goal leaves all its open listed neighbours visited at most one step dearer |
| Pathfinder.SearchStep | src/djikstra/mod.rs:19-46 | one round of the search loop keeps the start closed or waiting, and every changed cell waiting in the frontier or closed |
| Pathfinder.WalkVisited | src/djikstra/mod.rs:19-46 | after a search that closed the start and every changed cell, every cell entered by an open walk of listed moves from the start is visited |
| Pathfinder.GoalUnreachable | src/djikstra/mod.rs:19-46 | when such a search on an unsearched grid leaves the goal unvisited, no open walk of listed moves leads from the start to the goal |
| Pathfinder.CostAtLeastDistance | src/djikstra/mod.rs:24-34 | every visited cell's recorded cost is at least its Chebyshev distance from the start |
| Pathfinder.From | src/djikstra/mod.rs:65-68 | the walk starts at the goal's parent when it has one |
| Pathfinder.ChainTail | src/djikstra/mod.rs:69-75 | the rest of a parent chain is a chain from the next cell |
| Pathfinder.ChainExtend | src/djikstra/mod.rs:69-75 | one more step of the walk extends the chain |
| Pathfinder.ChainLength | src/djikstra/mod.rs:63-77 | a parent chain from p to the start has at least Chebyshev(p, start) cells |
| Pathfinder.PathLowerBound | src/djikstra/mod.rs:48-54 | a path from a reached goal has at least Chebyshev(start, goal) − 1 cells |
| Pathfinder.RelaxNeighbour | src/djikstra/mod.rs:22-39 | grid, frontier and hit are those of `RelaxOne`: an open neighbour that is unvisited or dearer is set visited with the new cost, the Chebyshev estimate and `current` as parent, and pushed unless it is the goal (then hit); otherwise grid and frontier are unchanged and there is no hit; parent links and frontier entries stay valid, and the measure drops unless nothing changed |
| Pathfinder.Expand | src/djikstra/mod.rs:21-45 | grid, frontier and hit are those of `RelaxAll` over the copies of `Neighbours`, in order, stopping at the goal; the grid is improved, the frontier only grows, every changed cell is pushed, and without a hit every open listed neighbour is visited at most one step dearer than `current` |
| Pathfinder.Search | src/djikstra/mod.rs:12-46 | the search terminates; the grid is only improved (every wall cell unchanged) and parent links stay consistent; reaching the goal visits it; otherwise the start (at cost 0) and every cell the search changed are closed: all their open listed neighbours are visited, at most one step dearer |
| Pathfinder.GetParents | src/djikstra/mod.rs:63-77 | the parent chain from the goal's parent (or (0, 0)) to the start, excluded; None exactly when the source loops forever |
| Pathfinder.MarkWalk | src/djikstra/mod.rs:50-52 | exactly the path cells get the walk flag; nothing else changes |
| Pathfinder.FindShortest | src/djikstra/mod.rs:7-54 | the searched grid improves the input; when the goal stays unvisited, the start and every changed cell are closed and, on a grid `get_matrix` built, no open walk leads from the start to the goal; when the goal is visited, a path that is the parent chain to the start, with the walk flags set on it; the result is a clone of the grid |

## Left out

- Reading and writing image files, `FileHandler`, `write_image`, `show`,
  `Debug` and `main`. These are I/O or printing. The image is a parameter
  (`Pixels.Image`).
- The `io::Error` result of `get_data`. A failed read is I/O; the model
  starts from a decoded RGB image.
- The `name`, `start`, `end` and `file_handler` fields of `DataHandle`.
  `get_data` sets start and end to (0, 0) and nothing in the core reads
  them.
- `BinaryHeap` internals. The frontier is a multiset, and a pop takes any
  maximum under `cmp`. Which of several equal maxima is popped is not
  modelled.
- `Cell` as a generic trait. The only instance is `MyCell`, so the model
  fixes it.
- Positions.Position.Distance: requires coordinates below 2^31. It does
  not model the `i32` wrap-around of larger `u32` coordinates.
- Matrices.Matrix.GetNeighbours: requires the cell's coordinates below
  2^31, for the `as i32` casts of its bounds tests. It does not model the
  wrap-around of larger `u32` coordinates.
- Pathfinder.Heuristic: the same restriction, as for `Position::distance`.
- Pathfinder.Search: costs and estimates are unbounded. It does not model
  `u32` overflow of `distance + 1` or of `get_combined`.
- Markers.DataHandle.CreatePosition: the `u32` subtraction underflow that
  aborts the program is the result `None`. The model does not crash.
- Pathfinder.GetParents: when the first cell of the walk is neither the
  start nor visited, the source spins forever. The model returns `None`
  there.
- Pathfinder.FindShortest: it does not claim the path is a shortest one.
  The search stops when the goal is first relaxed, and `get_neighbours`
  skips some moves, so optimality does not hold in general. The model
  proves the path is a consistent parent chain of open cells, at least as
  long as the straight-line distance, that recorded costs never
  underestimate that distance, and that the search gives up only on a goal
  no open walk of listed moves reaches.
- Pathfinder.Relaxed: the four `IndexMut` writes of a relaxation are
  composed into one write of the updated cell. No other code runs between
  them.
- Pathfinder.Expand and Pathfinder.RelaxNeighbour: the body of the
  neighbour loop is split into methods. The labelled `break 'outer`
  becomes a `hit` result that ends both loops at the same point.
- The `Err` arm of the neighbour loop. `get_neighbours` only ever pushes
  `Ok` values, so that arm is dead and the model drops the wrapper.
- Markers.GetData: requires an image at least one pixel wide and high. On
  an empty image the bottom corner (1, 1) lies outside it and `view`
  panics; the model does not represent that panic.
- Matrix indexing: both coordinates must be in range. The source's
  `assert!` checks only one, but the `Vec` index panics otherwise.
