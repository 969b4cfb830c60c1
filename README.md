# PyramidShader grid engine in Dafny

This project models the multi-resolution grid engine of PyramidShader, a
terrain generalisation and shading tool, and proves properties of the model.
The parts modelled are:

- the dense elevation `Grid`: constructors with their checks, the deep copy,
  cell access, the size test, minimum and maximum, slope with clamped
  neighbours, aspect, and bilinear interpolation;
- the Gaussian pyramid: its stopping rule, its level access and the expanded
  pyramid;
- the Laplacian pyramid: `expand` with its border taps and its void-aware
  tap rule, `difGrids`, the in-place `sumGrids`, level construction, and the
  `sumLevels` re-synthesis;
- in `Model`: the generalisation weights, the guarded setter, colour ramp
  selection, and `updateGeneralizedGrid`;
- the lazy cache of `LocalGridModel`;
- the Esri ASCII grid text format, read and written, with a round trip
  between the two;
- world-file path construction and world-file contents;
- the per-chunk raster operators: local standard deviation, shading,
  difference quotient, copying, and illuminated contours.

A cell is `Cell = Void | Val(r)`, where `Void` stands for the `NaN` used as
the no-data value. Java float arithmetic is modelled on unbounded reals with
NaN propagation. Java's `%` on doubles truncates toward zero and the `(int)`
cast truncates toward zero; both are written out (`Cells.JavaRem`,
`Cells.Trunc`). Library numerics are passed in as function parameters:
`sqrt`, `cos`, `atan2`, vector normalisation, the light vector, the
`Convolution5x5` reduction, float parsing and float printing. A Java
exception is a `Failure` value: `IllegalArgument(message)`,
`IndexOutOfBounds`, `UnsupportedOperation`, `IOFailure(message)` or
`NullPointer`. Each operation returns the exception the Java code would end
with, in the order it would meet it.

Grids are `class Grid` objects over an `array2<Cell>`. Operators update them
in place, and each method is proved against a function on values: `Raster`
is `seq<seq<Cell>>` and `GridValue` holds the cells, cell size, west and
south. The void branches of `LaplacianPyramid.expand` are modelled as the
code is written. The right-column call indexes past the source row
(LaplacianPyramid.java line 87). The bottom-row call passes an output row
index into the intermediate grid (line 138). The vertical pass writes the
renormalised pair into column `c / 2` (line 209). The first two show up as
`IndexOutOfBounds` outcomes of `ExpandSpec.ExpandError`, the third in
`ExpandSpec.InteriorCell`. Void-freeness of the result is claimed only for
void-free inputs.

Three behaviours of the code are easy to misread, and the model keeps them as written:

- `sumLevels` starts from a copy of the coarsest level and never multiplies it by a weight, so the coarsest level always has weight 1 (LaplacianPyramid.java:350-352);
- the coarsest entry of a Laplacian pyramid is the Gaussian grid object itself, not a copy (LaplacianPyramid.java:28);
- in `expand`, a void v1 or v2 voids both outputs of a tap; only a void v0 alone takes the renormalising branch (LaplacianPyramid.java:181-187).

## Model

| member | source | states |
|---|---|---|
| Cells.Trunc | src/edu/oregonstate/cartography/grid/Grid.java:145-146 | the `(int)` cast truncates toward zero: the floor for non-negative reals, the ceiling for negative ones |
| Cells.JavaRem | src/edu/oregonstate/cartography/grid/operators/IlluminatedContoursOperator.java:273 | Java's double `%` is NaN exactly when the divisor is 0 |
| Cells.Wrap32 | src/edu/oregonstate/cartography/grid/operators/GridStandardDeviationOperator.java:29 | Java `int` arithmetic: the result lies in the 32-bit range, differs from the exact value by a multiple of 2^32, keeps its parity, and is the exact value whenever that fits |
| Cells.WrapOnce | src/edu/oregonstate/cartography/grid/operators/IlluminatedContoursOperator.java:284 | a value up to 2^32 above the largest int wraps to itself minus 2^32 |
| Cells.IntCast | src/edu/oregonstate/cartography/grid/operators/IlluminatedContoursOperator.java:284 | the `(int)` cast of a double truncates toward zero inside the 32-bit range and saturates at its ends |
| Cells.JavaRemNonNegative | src/edu/oregonstate/cartography/grid/operators/IlluminatedContoursOperator.java:273 | for a non-negative dividend and a positive divisor the remainder lies in [0, divisor) |
| Grids.ConstructorCheck | src/edu/oregonstate/cartography/grid/Grid.java:61-90 | construction passes exactly when cols >= 3, rows >= 3 and cellSize > 0; otherwise it fails with "Not enough data points.", or with "Negative cell size" when only the cell size is wrong |
| Grids.Grid.constructor | src/edu/oregonstate/cartography/grid/Grid.java:78-90 | a valid grid of the given shape and cell size, placed at (0, 0), every cell 0, with a fresh array |
| Grids.Grid.Create | src/edu/oregonstate/cartography/grid/Grid.java:78-90 | `Grid(cols, rows, cellSize)` fails exactly when the check rejects, with the check's exception; otherwise a fresh zero grid of that shape and cell size |
| Grids.Grid.CreateUnit | src/edu/oregonstate/cartography/grid/Grid.java:61-69 | `Grid(cols, rows)` fails exactly when cols < 3 or rows < 3; otherwise its cell size is 1 |
| Grids.Grid.Copy | src/edu/oregonstate/cartography/grid/Grid.java:42-53 | the copy has the template's shape, cell size, west, south and cells, in an array of its own, so writes to the copy leave the template alone |
| Grids.Grid.SetValue | src/edu/oregonstate/cartography/grid/Grid.java:110-124 | after `setValue(v, c, r)` cell (c, r) holds v and every other cell is unchanged |
| Grids.Grid.North | src/edu/oregonstate/cartography/grid/Grid.java:414-416 | the north edge lies above the south edge of every valid grid |
| Grids.Grid.IsWellFormed | src/edu/oregonstate/cartography/grid/Grid.java:423-429 | every grid a constructor produced is well formed |
| Grids.Grid.IsIdenticalInSize | src/edu/oregonstate/cartography/grid/Grid.java:232-240 | false for null, true for the grid itself, and otherwise true exactly when columns, rows and cell size agree (the placement is not compared) |
| Grids.IdenticalInSizeSymmetric | src/edu/oregonstate/cartography/grid/Grid.java:232-240 | the size test is symmetric |
| Grids.Bilinear | src/edu/oregonstate/cartography/grid/Grid.java:155-166 | the interpolated value is void exactly when a corner is void; it is the bottom-left corner at (0, 0) and the top-left corner at relX = 0, relY = 1 |
| Grids.Grid.BilinearInterpol | src/edu/oregonstate/cartography/grid/Grid.java:135-167 | void when the truncated window leaves the grid; inside it, void exactly when one of the four window cells is void |
| Grids.BilinearAtNode | src/edu/oregonstate/cartography/grid/Grid.java:135-167 | at a grid node the window is the node's own and the interpolation returns the node's value, unless the window holds a void |
| Grids.NodeColumn | src/edu/oregonstate/cartography/grid/Grid.java:142-151 | at x = west + col * cellSize the window column is col and relX is 0 |
| Grids.NodeRow | src/edu/oregonstate/cartography/grid/Grid.java:146-152 | at y = north - row * cellSize the window row is row and relY is 1 |
| Grids.BilinearTruncatesTowardZero | src/edu/oregonstate/cartography/grid/Grid.java:145 | a point less than one cell west of the grid still falls into column 0, because the cast truncates toward zero |
| Grids.SlopeOf | src/edu/oregonstate/cartography/grid/Grid.java:274-289 | the slope is void exactly when one of the eight neighbours is void |
| Grids.ClampPrev | src/edu/oregonstate/cartography/grid/Grid.java:296-303 | the previous index stays in [0, i] and is i - 1 away from the first row or column |
| Grids.ClampNext | src/edu/oregonstate/cartography/grid/Grid.java:296-303 | the next index stays in [i, n) and is i + 1 away from the last row or column |
| Grids.Grid.Slope | src/edu/oregonstate/cartography/grid/Grid.java:292-316 | with clamped neighbours, `getSlope` equals `getSlopeInsideGrid` at every cell not on the border |
| Grids.Grid.Aspect | src/edu/oregonstate/cartography/grid/Grid.java:242-248 | the aspect is void exactly when one of the four direct neighbours is void |
| Grids.Grid.GetMinMax | src/edu/oregonstate/cartography/grid/Grid.java:176-192 | every value lies in [min, max]; min and max are cell values or stay at the Float.MAX_VALUE starts; an all-void grid gives (Float.MAX_VALUE, -Float.MAX_VALUE) |
| Grids.RowMajorUnique | src/edu/oregonstate/cartography/grid/EsriASCIIGridReader.java:254-256 | the value at row-major position k sits at column k % cols, row k / cols, and no other cell has that position |
| Grids.PositionInRange | src/edu/oregonstate/cartography/grid/EsriASCIIGridReader.java:254-256 | a position below rows * cols names a cell inside the grid |
| GaussianPyramids.LevelsFrom | src/edu/oregonstate/cartography/grid/GaussianPyramid.java:28-42 | the loop from a level on yields at least that level, every level valid |
| GaussianPyramids.Pyramid | src/edu/oregonstate/cartography/grid/GaussianPyramid.java:21-44 | the pyramid has at least one level and level 0 is the input |
| GaussianPyramids.LinksExtend | src/edu/oregonstate/cartography/grid/GaussianPyramid.java:32-41 | appending a reduction that the loop test admits extends a chain of reductions |
| GaussianPyramids.LevelsFromChain | src/edu/oregonstate/cartography/grid/GaussianPyramid.java:28-42 | each level after the first is the reduction of the one before, taken only when the loop test held for it, and the last one fails the test |
| GaussianPyramids.ChainIsLevelsFrom | src/edu/oregonstate/cartography/grid/GaussianPyramid.java:28-42 | any such chain is the loop's result: the pyramid is determined by its first level |
| GaussianPyramids.PyramidIsChain | src/edu/oregonstate/cartography/grid/GaussianPyramid.java:32-41 | the levels `createPyramid` builds are exactly the chain of reductions its test admits, and no other sequence is |
| GaussianPyramids.LevelsFromBound | src/edu/oregonstate/cartography/grid/GaussianPyramid.java:37 | levels already built plus those still added never exceed a positive level limit |
| GaussianPyramids.PyramidBound | src/edu/oregonstate/cartography/grid/GaussianPyramid.java:37 | for maxLevelsCount >= 1 the pyramid has at most maxLevelsCount levels |
| GaussianPyramids.PyramidStopsOnShape | src/edu/oregonstate/cartography/grid/GaussianPyramid.java:32-39 | the last level fails the test: its half size is too small, it has too few cells, or the level limit is reached |
| GaussianPyramids.PyramidHalves | src/edu/oregonstate/cartography/grid/GaussianPyramid.java:28-42 | with a halving reduction, every level has half the columns and rows of the one before |
| GaussianPyramids.ConvolveToHalfSize | src/edu/oregonstate/cartography/grid/GaussianPyramid.java:40 | a fresh grid holding the reduction of the level |
| GaussianPyramids.CreatePyramid | src/edu/oregonstate/cartography/grid/GaussianPyramid.java:21-44 | level 0 is the input grid object; the other levels are fresh grids whose values are the levels of `Pyramid`; a null input gives the one-entry pyramid [null] |
| GaussianPyramids.CreatePyramidDefault | src/edu/oregonstate/cartography/grid/GaussianPyramid.java:16-19 | the two-argument form uses the default minimum cell count, 4 = MIN_SIDE_LENGTH² |
| GaussianPyramids.GaussianPyramid.constructor | src/edu/oregonstate/cartography/grid/GaussianPyramid.java:46-48 | the one-argument constructor uses the level limit 9999 and the default minimum cell count |
| GaussianPyramids.GaussianPyramid.WithMaxLevels | src/edu/oregonstate/cartography/grid/GaussianPyramid.java:50-52 | the pyramid of the given level limit and the default minimum cell count |
| GaussianPyramids.GaussianPyramid.WithLimits | src/edu/oregonstate/cartography/grid/GaussianPyramid.java:54-56 | the pyramid of the given level limit and minimum cell count |
| GaussianPyramids.Iterate | src/edu/oregonstate/cartography/grid/GaussianPyramid.java:66-70 | zero expansions leave the level as it is |
| GaussianPyramids.IteratePropagates | src/edu/oregonstate/cartography/grid/GaussianPyramid.java:66-70 | once an expansion fails, every further one ends with the same exception |
| GaussianPyramids.ExpandDoubling | src/edu/oregonstate/cartography/grid/GaussianPyramid.java:68 | `expand(g, 2 cols, 2 rows)` fails exactly when `expand` does, with its exception, and otherwise gives `expand`'s value |
| GaussianPyramids.Pow2 | src/edu/oregonstate/cartography/grid/GaussianPyramid.java:66-70 | 2^k is at least 1 |
| GaussianPyramids.DoubledIsScaled | src/edu/oregonstate/cartography/grid/GaussianPyramid.java:66-70 | k doublings of n give n * 2^k |
| GaussianPyramids.HalvedIsScaled | src/edu/oregonstate/cartography/grid/GaussianPyramid.java:66-70 | k halvings of x give x / 2^k |
| GaussianPyramids.IterateVoidFree | src/edu/oregonstate/cartography/grid/GaussianPyramid.java:66-70 | repeated void-free doubling of a void-free grid always succeeds and stays void-free |
| GaussianPyramids.IterateShape | src/edu/oregonstate/cartography/grid/GaussianPyramid.java:66-70 | k doublings multiply the shape by 2^k and divide the cell size by 2^k |
| GaussianPyramids.DoublingVoidFree | src/edu/oregonstate/cartography/grid/GaussianPyramid.java:68 | expanding a void-free grid to twice its shape succeeds, is void-free, doubles the shape and halves the cell size |
| GaussianPyramids.ExpandTimesVoidFree | src/edu/oregonstate/cartography/grid/GaussianPyramid.java:62-73 | entry i of the expanded pyramid of a void-free level succeeds, with 2^i times its shape, 1/2^i of its cell size and no void |
| GaussianPyramids.ExpandRepeatedly | src/edu/oregonstate/cartography/grid/GaussianPyramid.java:66-70 | k expansions of the level, failing with the first exception met; zero expansions return the level object itself |
| GaussianPyramids.ExtendExpanded | src/edu/oregonstate/cartography/grid/GaussianPyramid.java:64-71 | storing level i expanded i times extends the entries computed so far |
| GaussianPyramids.ExpandLevels | src/edu/oregonstate/cartography/grid/GaussianPyramid.java:64-71 | fails exactly when one level's expansion fails, with the first such exception; otherwise entry j is level j expanded j times and entry 0 is level 0 itself |
| GaussianPyramids.ExpandLevelAt | src/edu/oregonstate/cartography/grid/GaussianPyramid.java:65-70 | iteration i stores level i expanded i times, or ends with the exception of that expansion |
| GaussianPyramids.ExpandedFails | src/edu/oregonstate/cartography/grid/GaussianPyramid.java:64-71 | the exception of the loop is that of the first level whose expansion fails |
| GaussianPyramids.GaussianPyramid.ExpandedPyramid | src/edu/oregonstate/cartography/grid/GaussianPyramid.java:62-73 | `getExpandedPyramid` has the pyramid's length, entry 0 is level 0 unchanged, entry i is level i expanded i times, and an expansion's exception propagates |
| GaussianPyramids.GaussianPyramid.LevelsCount | src/edu/oregonstate/cartography/grid/GaussianPyramid.java:90-92 | the number of levels, at least one |
| GaussianPyramids.GaussianPyramid.Level | src/edu/oregonstate/cartography/grid/GaussianPyramid.java:86-88 | level i for 0 <= i < count; any other index is an array index exception |
| GaussianPyramids.GaussianPyramid.FullResolutionLevel | src/edu/oregonstate/cartography/grid/GaussianPyramid.java:75-77 | the full-resolution level is level 0, the input grid |
| ExpandSpec.Min | src/edu/oregonstate/cartography/grid/LaplacianPyramid.java:161-162 | `Math.min`: a lower bound of both arguments and equal to one of them |
| ExpandSpec.Even | src/edu/oregonstate/cartography/grid/LaplacianPyramid.java:179 | the even output is void exactly when one of its three taps is void |
| ExpandSpec.Odd | src/edu/oregonstate/cartography/grid/LaplacianPyramid.java:180 | the odd output is void exactly when v1 or v2 is void |
| ExpandSpec.PartialMeansOnlyFirstVoid | src/edu/oregonstate/cartography/grid/LaplacianPyramid.java:181-187 | the void branch is taken, with one output NaN and the other not, exactly when v0 alone is void |
| ExpandSpec.WithVoid | src/edu/oregonstate/cartography/grid/LaplacianPyramid.java:221-278 | `expandWithVoid` voids an output only when all its taps are void; with every tap valid it equals the plain rule; with only v0 void the even output is renormalised by (2wc + wa)/(wa + wc) and the odd output is the plain one |
| ExpandSpec.Tap | src/edu/oregonstate/cartography/grid/LaplacianPyramid.java:173-191 | the interior tap voids both outputs when v1 or v2 is void; with no void they are 2(wc(v0 + v2) + wa v1) and 2 wb (v1 + v2) |
| ExpandSpec.TapConstant | src/edu/oregonstate/cartography/grid/LaplacianPyramid.java:19-21 | the filter weights of each output sum to one, so a constant signal stays constant |
| ExpandSpec.WithVoidConstant | src/edu/oregonstate/cartography/grid/LaplacianPyramid.java:260-270 | after renormalisation a constant signal stays constant when the first tap is void |
| ExpandSpec.LeftNeverPartial | src/edu/oregonstate/cartography/grid/LaplacianPyramid.java:53-55 | the left border replicates v0 := v1, so its void branch is never taken |
| ExpandSpec.HPairLeft | src/edu/oregonstate/cartography/grid/LaplacianPyramid.java:52-71 | the left-border pair is the plain rule on (v1, v1, v2) |
| ExpandSpec.HPairRight | src/edu/oregonstate/cartography/grid/LaplacianPyramid.java:74-93 | unless its void branch fails, the right-border pair is the plain rule on (v0, v1, v1) |
| ExpandSpec.TempRaster | src/edu/oregonstate/cartography/grid/LaplacianPyramid.java:170-193 | the intermediate grid of the horizontal pass has `rows` rows of 2 cols cells |
| ExpandSpec.InteriorStep | src/edu/oregonstate/cartography/grid/LaplacianPyramid.java:197-215 | one more iteration of the inner vertical loop writes column c in its plain branch and column c / 2 in its void branch, and leaves every other column as it was |
| ExpandSpec.ExpandRaster | src/edu/oregonstate/cartography/grid/LaplacianPyramid.java:155-219 | the expanded raster has newCols x newRows cells |
| ExpandSpec.ExpandError | src/edu/oregonstate/cartography/grid/LaplacianPyramid.java:155-219 | a capped shape below 3 is the grid constructor's exception; success implies newCols >= 3 and 2 rows - 2 <= newRows <= 2 rows; every other failure is an index exception |
| ExpandSpec.ExpandErrorNone | src/edu/oregonstate/cartography/grid/LaplacianPyramid.java:155-219 | when the constructor check, both border passes and the row range succeed, `expand` ends without exception |
| ExpandSpec.ExpandErrorIndex | src/edu/oregonstate/cartography/grid/LaplacianPyramid.java:155-219 | past the constructor check, a failing pass makes `expand` end with an index exception |
| ExpandSpec.ExpandValue | src/edu/oregonstate/cartography/grid/LaplacianPyramid.java:157-164 | the result has min(maxCols, 2 cols) x min(maxRows, 2 rows) cells, half the cell size, and lies at (0, 0) |
| ExpandSpec.TempVoidFree | src/edu/oregonstate/cartography/grid/LaplacianPyramid.java:170-193 | a void-free grid gives a void-free intermediate grid |
| ExpandSpec.ExpandCellVoidFree | src/edu/oregonstate/cartography/grid/LaplacianPyramid.java:195-216 | with no void in the intermediate grid, every output cell has a value |
| ExpandSpec.NoBorderPartial | src/edu/oregonstate/cartography/grid/LaplacianPyramid.java:82-88 | with no void in the source, neither faulty border call (lines 87 and 138) is reached |
| ExpandSpec.ExpandVoidFree | src/edu/oregonstate/cartography/grid/LaplacianPyramid.java:155-219 | a void-free grid expands without exception exactly when the shape check and the row range hold, and the result is void-free |
| ExpandSpec.ExpandCellConstant | src/edu/oregonstate/cartography/grid/LaplacianPyramid.java:195-216 | a constant intermediate grid gives the constant at every output cell |
| ExpandSpec.ExpandConstant | src/edu/oregonstate/cartography/grid/LaplacianPyramid.java:155-219 | a constant grid expands to the same constant |
| LaplacianSpec.DifRaster | src/edu/oregonstate/cartography/grid/LaplacianPyramid.java:327-333 | the cell-wise difference v1 - v2 |
| LaplacianSpec.SumRaster | src/edu/oregonstate/cartography/grid/LaplacianPyramid.java:297-303 | the cell-wise sum low + high * scale |
| LaplacianSpec.DifValue | src/edu/oregonstate/cartography/grid/LaplacianPyramid.java:314-336 | the difference grid has grid1's shape and cell size and lies at (0, 0) |
| LaplacianSpec.SumUndoesDif | src/edu/oregonstate/cartography/grid/LaplacianPyramid.java:301 | adding back with weight 1 what was subtracted restores the cells wherever the subtrahend has no void |
| LaplacianSpec.DifVoid | src/edu/oregonstate/cartography/grid/LaplacianPyramid.java:331 | a difference cell is void exactly when one operand is |
| LaplacianSpec.DifStepError | src/edu/oregonstate/cartography/grid/LaplacianPyramid.java:34-41 | an iteration of `createPyramid` ends without exception only when `expand` succeeds and its result has the finer level's size |
| LaplacianSpec.DifStep | src/edu/oregonstate/cartography/grid/LaplacianPyramid.java:34-41 | each Laplacian level has the shape of its Gaussian level |
| LaplacianSpec.LevelsError | src/edu/oregonstate/cartography/grid/LaplacianPyramid.java:32-42 | the level loop ends without exception only when every one of its iterations does |
| LaplacianSpec.LevelsErrorNone | src/edu/oregonstate/cartography/grid/LaplacianPyramid.java:32-42 | the level loop ends without exception exactly when each iteration does |
| LaplacianSpec.LevelsErrorNoneFrom | src/edu/oregonstate/cartography/grid/LaplacianPyramid.java:32-42 | a loop without exception from level i on has none from every later level either |
| LaplacianSpec.LevelsErrorPropagates | src/edu/oregonstate/cartography/grid/LaplacianPyramid.java:32-42 | the first exception met is the exception `createPyramid` ends with |
| LaplacianSpec.LaplacianLevel | src/edu/oregonstate/cartography/grid/LaplacianPyramid.java:25-42 | level i has Gaussian level i's shape; the last level is the coarsest Gaussian level itself |
| LaplacianSpec.LaplacianLevels | src/edu/oregonstate/cartography/grid/LaplacianPyramid.java:25-42 | one level per Gaussian level |
| LaplacianSpec.SumStep | src/edu/oregonstate/cartography/grid/LaplacianPyramid.java:357-360 | a successful step of `sumLevels` has the shape of the level it adds |
| LaplacianSpec.SumFrom | src/edu/oregonstate/cartography/grid/LaplacianPyramid.java:347-365 | the running sum has the shape of the last level added |
| LaplacianSpec.SumLevelsValue | src/edu/oregonstate/cartography/grid/LaplacianPyramid.java:347-365 | a successful `sumLevels` has the shape of level 0 |
| LaplacianSpec.Present | src/edu/oregonstate/cartography/grid/LaplacianPyramid.java:25 | the levels as non-null entries of the level array |
| LaplacianSpec.ExpandIgnoresPlacement | src/edu/oregonstate/cartography/grid/LaplacianPyramid.java:155-219 | `expand` depends only on the cells and the cell size of its input, not on its placement |
| LaplacianSpec.SumStepPasses | src/edu/oregonstate/cartography/grid/LaplacianPyramid.java:357-360 | without weights, a step that passes the checks adds the level with weight 1 to the expanded sum |
| LaplacianSpec.SumFromReconstructs | src/edu/oregonstate/cartography/grid/LaplacianPyramid.java:347-365 | summing the Laplacian levels from level i gives back Gaussian level i's cells, when every expansion is void-free |
| LaplacianSpec.Reconstruction | src/edu/oregonstate/cartography/grid/LaplacianPyramid.java:347-365 | `sumLevels` without weights, after `createPyramid`, re-synthesises the finest Gaussian level exactly, when every expansion is void-free |
| LaplacianSpec.ReconstructionVoidFree | src/edu/oregonstate/cartography/grid/LaplacianPyramid.java:347-365 | a void-free Gaussian pyramid is re-synthesised exactly |
| LaplacianSpec.SumFromPropagates | src/edu/oregonstate/cartography/grid/LaplacianPyramid.java:356-361 | a failure of the running sum is the failure of the whole sum |
| LaplacianSpec.SumFromFailureStep | src/edu/oregonstate/cartography/grid/LaplacianPyramid.java:356-361 | a failure of the sum of the levels above j is also the sum from level j |
| LaplacianSpec.SumFromNext | src/edu/oregonstate/cartography/grid/LaplacianPyramid.java:356-361 | one more loop step turns the sum of the coarser levels into the sum from level i |
| LaplacianSpec.SumFromStep | src/edu/oregonstate/cartography/grid/LaplacianPyramid.java:356-361 | once the levels above i have summed to `prev`, the sum from level i is the loop step applied to `prev` and level i |
| LaplacianSpec.SumFromFails | src/edu/oregonstate/cartography/grid/LaplacianPyramid.java:356-361 | a failing step ends the whole sum with its exception |
| LaplacianPyramids.ExpandWithVoid | src/edu/oregonstate/cartography/grid/LaplacianPyramid.java:221-278 | writes the renormalised pair at the horizontal or vertical position when every index is in range, and otherwise fails with nothing written |
| LaplacianPyramids.ExpandLeftColumn | src/edu/oregonstate/cartography/grid/LaplacianPyramid.java:52-71 | intermediate columns 0 and 1 of every row hold the left-border pair; the other columns are untouched |
| LaplacianPyramids.RightTap | src/edu/oregonstate/cartography/grid/LaplacianPyramid.java:74-93 | one right-border iteration writes the last two columns of its row, or fails on the out-of-range void branch |
| LaplacianPyramids.ExpandRightColumn | src/edu/oregonstate/cartography/grid/LaplacianPyramid.java:74-93 | the right-border loop succeeds exactly when no row takes the faulty void branch, and then writes the right-border pairs |
| LaplacianPyramids.ExpandBorderColumns | src/edu/oregonstate/cartography/grid/LaplacianPyramid.java:46-95 | both border columns; fails exactly when a right-border row takes the faulty void branch |
| LaplacianPyramids.TopTap | src/edu/oregonstate/cartography/grid/LaplacianPyramid.java:104-122 | output rows 0 and 1 of column c hold the top pair |
| LaplacianPyramids.BottomTap | src/edu/oregonstate/cartography/grid/LaplacianPyramid.java:125-144 | output rows newRows - 2 and newRows - 1 of column c hold the bottom pair, unless the faulty void branch fails |
| LaplacianPyramids.ExpandBorderRows | src/edu/oregonstate/cartography/grid/LaplacianPyramid.java:97-145 | fails exactly when a bottom column takes the faulty void branch; otherwise every cell is the border value of the specification |
| LaplacianPyramids.HorizontalTap | src/edu/oregonstate/cartography/grid/LaplacianPyramid.java:176-191 | source cell (c, r) writes its tap pair into intermediate columns 2c and 2c + 1 of row r only |
| LaplacianPyramids.ExpandInteriorColumns | src/edu/oregonstate/cartography/grid/LaplacianPyramid.java:173-193 | every interior source column writes its pair; the border columns keep their values |
| LaplacianPyramids.TempCellAt | src/edu/oregonstate/cartography/grid/LaplacianPyramid.java:170-193 | intermediate cell (r, k) is component k % 2 of the pair of source column k / 2 |
| LaplacianPyramids.TempRasterAt | src/edu/oregonstate/cartography/grid/LaplacianPyramid.java:170-193 | cell (r, k) of the specified intermediate grid is component k % 2 of the pair of source column k / 2 |
| LaplacianPyramids.TempComplete | src/edu/oregonstate/cartography/grid/LaplacianPyramid.java:170-193 | after the horizontal pass the intermediate array holds `TempRaster` |
| LaplacianPyramids.ExpandHorizontal | src/edu/oregonstate/cartography/grid/LaplacianPyramid.java:172-193 | the horizontal pass succeeds exactly when no right-border row takes the faulty branch, and then produces `TempRaster` |
| LaplacianPyramids.VerticalTap | src/edu/oregonstate/cartography/grid/LaplacianPyramid.java:199-214 | one vertical iteration writes column c, or column c / 2 in its void branch |
| LaplacianPyramids.ExpandInteriorRow | src/edu/oregonstate/cartography/grid/LaplacianPyramid.java:197-215 | output rows 2r and 2r + 1 hold the interior cells of the specification |
| LaplacianPyramids.ExpandInteriorRows | src/edu/oregonstate/cartography/grid/LaplacianPyramid.java:196-216 | succeeds exactly when every output row index is in range, and then writes the specification's cells |
| LaplacianPyramids.ExpandVertical | src/edu/oregonstate/cartography/grid/LaplacianPyramid.java:195-216 | the vertical pass succeeds exactly when both of its checks hold, and then every output cell is `ExpandCell` |
| LaplacianPyramids.ExpandComplete | src/edu/oregonstate/cartography/grid/LaplacianPyramid.java:195-216 | the cells the vertical pass leaves are `ExpandRaster` |
| LaplacianPyramids.ExpandPasses | src/edu/oregonstate/cartography/grid/LaplacianPyramid.java:170-216 | both passes succeed exactly when their checks hold, and then the new grid's cells are `ExpandRaster` |
| LaplacianPyramids.Expand | src/edu/oregonstate/cartography/grid/LaplacianPyramid.java:155-219 | `expand` fails exactly when `ExpandError` says so, with that exception; otherwise a fresh grid whose value is `ExpandValue` |
| LaplacianPyramids.DifGrids | src/edu/oregonstate/cartography/grid/LaplacianPyramid.java:314-336 | fails with "grids of different size" exactly when the size test fails; otherwise a fresh grid holding grid1 - grid2 |
| LaplacianPyramids.Values | src/edu/oregonstate/cartography/grid/LaplacianPyramid.java:25 | the values of the level array, null entries as `None` |
| LaplacianPyramids.ValueOf | src/edu/oregonstate/cartography/grid/LaplacianPyramid.java:357 | the value of a nullable level |
| LaplacianPyramids.GridValues | src/edu/oregonstate/cartography/grid/LaplacianPyramid.java:23 | the values of the Gaussian levels |
| LaplacianPyramids.LaplacianStep | src/edu/oregonstate/cartography/grid/LaplacianPyramid.java:34-41 | one iteration of `createPyramid`: fails exactly as `DifStepError` says, and otherwise gives the difference of the finer level and the expanded coarser one |
| LaplacianPyramids.FilledFails | src/edu/oregonstate/cartography/grid/LaplacianPyramid.java:32-42 | the loop stops at the first failing iteration, with its exception |
| LaplacianPyramids.FilledStep | src/edu/oregonstate/cartography/grid/LaplacianPyramid.java:32-42 | a successful iteration fills one more entry |
| LaplacianPyramids.FilledComplete | src/edu/oregonstate/cartography/grid/LaplacianPyramid.java:32-42 | the loop that ran all its iterations has built every level |
| LaplacianPyramids.FillLevel | src/edu/oregonstate/cartography/grid/LaplacianPyramid.java:34-41 | iteration i fills entry i - 1, or ends with that iteration's exception |
| LaplacianPyramids.BuildLevels | src/edu/oregonstate/cartography/grid/LaplacianPyramid.java:25-42 | the level array afterwards: entries of successful iterations filled, the others null, and the exception of the first failing iteration |
| LaplacianPyramids.CreatedHasValues | src/edu/oregonstate/cartography/grid/LaplacianPyramid.java:25-42 | every non-null entry holds the Laplacian level of the specification |
| LaplacianPyramids.BuiltValues | src/edu/oregonstate/cartography/grid/LaplacianPyramid.java:25-42 | without exception, the level array holds exactly the Laplacian levels |
| LaplacianPyramids.LaplacianPyramid.constructor | src/edu/oregonstate/cartography/grid/LaplacianPyramid.java:12-17 | a new pyramid has no levels and no weights |
| LaplacianPyramids.LaplacianPyramid.CreatePyramid | src/edu/oregonstate/cartography/grid/LaplacianPyramid.java:23-44 | one entry per Gaussian level; the last is the coarsest Gaussian grid object itself; the others are fresh difference grids or null past an exception; weights unchanged |
| LaplacianPyramids.LaplacianPyramid.SetWeights | src/edu/oregonstate/cartography/grid/LaplacianPyramid.java:338-340 | stores a copy of the caller's weights, so later changes to the caller's array do not reach the pyramid |
| LaplacianPyramids.LaplacianPyramid.SumGrids | src/edu/oregonstate/cartography/grid/LaplacianPyramid.java:288-304 | throws on a size mismatch and changes nothing; otherwise low becomes low + high * scale cell by cell, in place, and high is unchanged |
| LaplacianPyramids.LaplacianPyramid.SumRow | src/edu/oregonstate/cartography/grid/LaplacianPyramid.java:298-302 | row r becomes low + high * scale; the other rows are unchanged |
| LaplacianPyramids.LaplacianPyramid.SumLevels | src/edu/oregonstate/cartography/grid/LaplacianPyramid.java:347-365 | a null level array is a null pointer; otherwise the result or exception of `SumLevelsValue` on the levels and weights, in a fresh grid |
| LaplacianPyramids.LaplacianPyramid.SumValues | src/edu/oregonstate/cartography/grid/LaplacianPyramid.java:350-363 | the copy of the coarsest level, then the loop, gives `SumLevelsValue` |
| LaplacianPyramids.LaplacianPyramid.AddFinerLevels | src/edu/oregonstate/cartography/grid/LaplacianPyramid.java:356-361 | the loop over the finer levels ends with the sum from level 0, or its exception |
| LaplacianPyramids.LaplacianPyramid.AddLevelAt | src/edu/oregonstate/cartography/grid/LaplacianPyramid.java:357-360 | iteration i gives the sum from level i, or the exception of the whole sum |
| LaplacianPyramids.LaplacianPyramid.AddLevel | src/edu/oregonstate/cartography/grid/LaplacianPyramid.java:357-360 | the loop body: expand the sum to level i's shape and add it with w[i], as `SumStep` says, with its exceptions |
| Models.Clamp | src/edu/oregonstate/cartography/grid/Model.java:296-297 | the clamp lies in [0, 1] and leaves values in [0, 1] unchanged |
| Models.PyramidLevelWeight | src/edu/oregonstate/cartography/grid/Model.java:269-298 | the weight lies in [0, 1]; it is 1 at or past the generalised levels or without any; for a generalised level it is 0 at details 1 and 1 at details -1 |
| Models.SlopeNonNegative | src/edu/oregonstate/cartography/grid/Model.java:281-293 | the slope of the weight line is never negative for details in [-1, 1) |
| Models.WeightMonotone | src/edu/oregonstate/cartography/grid/Model.java:269-298 | for details in [-1, 1] the weight does not decrease with the level |
| Models.LineReachesOne | src/edu/oregonstate/cartography/grid/Model.java:281-293 | the weight line reaches 1 at the last generalised level |
| Models.LineCrossesZero | src/edu/oregonstate/cartography/grid/Model.java:281-287 | for positive details the weight line crosses 0 at level details * maxLevels |
| Models.WeightsOrdered | src/edu/oregonstate/cartography/grid/Model.java:310-313 | the weight array has one weight in [0, 1] per level, in non-decreasing order |
| Models.PredefinedColorRamps | src/edu/oregonstate/cartography/grid/Model.java:200-245 | five ramps, each with one position per colour |
| Models.FirstNamed | src/edu/oregonstate/cartography/grid/Model.java:253-260 | the index of the first ramp with the name, and none when no ramp has it |
| Models.Model.constructor | src/edu/oregonstate/cartography/grid/Model.java:200-245 | the five ramps, "Soft Gray" in use, no generalised levels, details -0.8, no pyramid, range, grid or slope grid |
| Models.Model.SelectColorRamp | src/edu/oregonstate/cartography/grid/Model.java:253-260 | the first ramp of that name is in use afterwards; an unknown name leaves the ramp in use; no other field changes |
| Models.Model.SetGeneralizationDetails | src/edu/oregonstate/cartography/grid/Model.java:501-506 | a value outside [-1, 1] throws and leaves the stored value; any other value is stored; no other field changes |
| Models.Model.LevelWeights | src/edu/oregonstate/cartography/grid/Model.java:310-313 | w[i] is the weight of level i, for every level |
| Models.Model.UpdateGeneralizedGrid | src/edu/oregonstate/cartography/grid/Model.java:304-323 | no-op without a pyramid; otherwise the levels summed with the weight of each level, rescaled in place to the original grid's range, become a fresh generalised grid with the sum's georeference, and the slope grid is the slope of that grid; the sum's exception leaves both as they were |
| Models.RescaleAndSlope | src/edu/oregonstate/cartography/grid/Model.java:320-322 | the grid keeps its georeference and shape and holds the rescaled cells of its old value, and the slope grid is the slope of the rescaled grid |
| Models.StoreCells | src/edu/oregonstate/cartography/grid/Model.java:320 | the rescaling writes its cells into the grid it read, which keeps its array |
| LocalGridModels.Initial | src/edu/oregonstate/cartography/grid/LocalGridModel.java:21-22 | a new cache has nothing loaded and nothing cached, standard deviation 11 and 3 levels |
| LocalGridModels.StoreGrid | src/edu/oregonstate/cartography/grid/LocalGridModel.java:33-37 | `setGrid` stores the grid, min/max and pyramid and clears no cache |
| LocalGridModels.UpdateFiltered | src/edu/oregonstate/cartography/grid/LocalGridModel.java:70-85 | no-op without a grid; otherwise missing low-pass and std grids are computed and present ones kept; the filtered grid combines them |
| LocalGridModels.GetFiltered | src/edu/oregonstate/cartography/grid/LocalGridModel.java:39-44 | a cached filtered grid is returned unchanged; a missing one is computed first |
| LocalGridModels.SetLowPassStd | src/edu/oregonstate/cartography/grid/LocalGridModel.java:97-101 | stores the low-pass standard deviation and keeps the level count |
| LocalGridModels.SetStdLevels | src/edu/oregonstate/cartography/grid/LocalGridModel.java:114-118 | stores the level count and keeps the low-pass standard deviation |
| LocalGridModels.GetFilteredIdempotent | src/edu/oregonstate/cartography/grid/LocalGridModel.java:39-44 | with a grid loaded a filtered grid is returned, and asking again changes nothing |
| LocalGridModels.SetGridKeepsStaleResult | src/edu/oregonstate/cartography/grid/LocalGridModel.java:33-37 | after `setGrid` the next `getFilteredGrid` returns the old cached result |
| LocalGridModels.SetLowPassStdRecomputes | src/edu/oregonstate/cartography/grid/LocalGridModel.java:97-101 | with a grid loaded the low-pass and filtered grids are recomputed and the std grid is kept |
| LocalGridModels.SetStdLevelsRecomputes | src/edu/oregonstate/cartography/grid/LocalGridModel.java:114-118 | with a grid loaded the std and filtered grids are recomputed and the low-pass grid is kept |
| LocalGridModels.SettersWithoutGrid | src/edu/oregonstate/cartography/grid/LocalGridModel.java:46-62 | without a grid the setters only store their value |
| LocalGridModels.LocalGridModel.constructor | src/edu/oregonstate/cartography/grid/LocalGridModel.java:21-31 | the fields start in the initial state |
| LocalGridModels.LocalGridModel.SetGrid | src/edu/oregonstate/cartography/grid/LocalGridModel.java:33-37 | the fields become `StoreGrid` of the old ones |
| LocalGridModels.LocalGridModel.GetFilteredGrid | src/edu/oregonstate/cartography/grid/LocalGridModel.java:39-44 | new fields and result as `GetFiltered` says |
| LocalGridModels.LocalGridModel.UpdateLowPassGrid | src/edu/oregonstate/cartography/grid/LocalGridModel.java:46-53 | recomputes the low-pass grid only when a grid is loaded |
| LocalGridModels.LocalGridModel.UpdateStdGrid | src/edu/oregonstate/cartography/grid/LocalGridModel.java:55-62 | recomputes the std grid only when a grid is loaded |
| LocalGridModels.LocalGridModel.UpdateFilteredGrid | src/edu/oregonstate/cartography/grid/LocalGridModel.java:70-85 | the fields become `UpdateFiltered` of the old ones |
| LocalGridModels.LocalGridModel.SetLocalGridLowPassStd | src/edu/oregonstate/cartography/grid/LocalGridModel.java:97-101 | the fields become `SetLowPassStd` of the old ones |
| LocalGridModels.LocalGridModel.SetLocalGridStandardDeviationLevels | src/edu/oregonstate/cartography/grid/LocalGridModel.java:114-118 | the fields become `SetStdLevels` of the old ones |
| AsciiGridReaders.TokenLength | src/edu/oregonstate/cartography/grid/EsriASCIIGridReader.java:248 | the run of non-delimiters that starts the text ends at a space or tab, or at the end |
| AsciiGridReaders.Tokens | src/edu/oregonstate/cartography/grid/EsriASCIIGridReader.java:248 | the tokenizer yields non-empty tokens free of spaces and tabs |
| AsciiGridReaders.Decode | src/edu/oregonstate/cartography/grid/EsriASCIIGridReader.java:262-263 | a value equal to the no-data value, or NaN, is stored as void; any other value as parsed |
| AsciiGridReaders.LineValues | src/edu/oregonstate/cartography/grid/EsriASCIIGridReader.java:250-265 | the tokens of one line are appended in order and decoded, never beyond rows * cols; a parse failure or the "corrupt" check stops the line |
| AsciiGridReaders.LineStep | src/edu/oregonstate/cartography/grid/EsriASCIIGridReader.java:236-279 | a pass of the loop either continues with the values so far, fewer than rows * cols, or stops; a stop without exception or abort has all rows * cols values |
| AsciiGridReaders.ConsumeFrom | src/edu/oregonstate/cartography/grid/EsriASCIIGridReader.java:229-284 | values are stored in order and never beyond rows * cols; a run without exception or abort stores exactly rows * cols; an abort raises no exception |
| AsciiGridReaders.TooManyTokens | src/edu/oregonstate/cartography/grid/EsriASCIIGridReader.java:258-261 | a line with more tokens than values still missing always ends in an exception, and it is "corrupt Esri Ascii grid file" exactly when the grid filled up first (otherwise an earlier token failed to parse) |
| AsciiGridReaders.LaterLinesIgnored | src/edu/oregonstate/cartography/grid/EsriASCIIGridReader.java:275-279 | a run that ends without exception before the end of its lines gives the same result whatever lines follow: the loop stops once rows * cols values are read |
| AsciiGridReaders.ValuesRaster | src/edu/oregonstate/cartography/grid/EsriASCIIGridReader.java:254-256 | the values of a full run, laid out row-major |
| AsciiGridReaders.PlacedAll | src/edu/oregonstate/cartography/grid/EsriASCIIGridReader.java:254-263 | once rows * cols values are placed, the grid's cells are those values in row-major order |
| AsciiGridReaders.ProgressIndicator.constructor | src/edu/oregonstate/cartography/grid/EsriASCIIGridReader.java:77-88 | a new indicator has not been aborted |
| AsciiGridReaders.ProgressIndicator.Start | src/edu/oregonstate/cartography/grid/EsriASCIIGridReader.java:118-120 | a new run starts not aborted |
| AsciiGridReaders.ProgressIndicator.Progress | src/edu/oregonstate/cartography/grid/EsriASCIIGridReader.java:266-274 | the answer to a report; a negative answer marks the run aborted |
| AsciiGridReaders.Consumer.constructor | src/edu/oregonstate/cartography/grid/EsriASCIIGridReader.java:215-226 | the consumer holds the grid, the no-data value, the parser and the indicator, with no value counted yet |
| AsciiGridReaders.Consumer.StoreValue | src/edu/oregonstate/cartography/grid/EsriASCIIGridReader.java:254-263 | value k goes to column k % cols, row k / cols |
| AsciiGridReaders.Consumer.ReadTokens | src/edu/oregonstate/cartography/grid/EsriASCIIGridReader.java:250-265 | the token loop stores what `LineValues` says and ends with its exception |
| AsciiGridReaders.Consumer.ConsumeLine | src/edu/oregonstate/cartography/grid/EsriASCIIGridReader.java:236-279 | one pass of the loop stores what `LineStep` says |
| AsciiGridReaders.Consumer.Run | src/edu/oregonstate/cartography/grid/EsriASCIIGridReader.java:229-284 | the grid holds the values of `Consume` placed row-major and the consumer ends with its exception |
| AsciiGridReaders.Read | src/edu/oregonstate/cartography/grid/EsriASCIIGridReader.java:77-168 | the static `read` over the stream reader: a bad header shape is the grid constructor's exception; a consumer exception is re-raised as an IOException; an abort gives null; otherwise a fresh grid of the header's shape and position holding the values |
| AsciiGridExporters.Pow10 | src/edu/oregonstate/cartography/grid/ESRIASCIIGridExporter.java:55-57 | 10^k is at least 1 |
| AsciiGridExporters.Nines | src/edu/oregonstate/cartography/grid/ESRIASCIIGridExporter.java:55-57 | k nines |
| AsciiGridExporters.NinesValue | src/edu/oregonstate/cartography/grid/ESRIASCIIGridExporter.java:55-57 | k nines denote 10^k - 1 |
| AsciiGridExporters.SentinelDecreasing | src/edu/oregonstate/cartography/grid/ESRIASCIIGridExporter.java:55-57 | the candidate sentinels -9999, -99999, ... strictly decrease |
| AsciiGridExporters.Pow10Above | src/edu/oregonstate/cartography/grid/ESRIASCIIGridExporter.java:55-57 | 10^k exceeds k, which bounds the search |
| AsciiGridExporters.VoidValueUnique | src/edu/oregonstate/cartography/grid/ESRIASCIIGridExporter.java:53-60 | the chosen sentinel is unique |
| AsciiGridExporters.NoValueAtMost | src/edu/oregonstate/cartography/grid/ESRIASCIIGridExporter.java:55-58 | below a sentinel that lies under every value there is no value |
| AsciiGridExporters.AllVoidGetsShortest | src/edu/oregonstate/cartography/grid/ESRIASCIIGridExporter.java:53-60 | an all-void grid gets -9999 |
| AsciiGridExporters.SentinelBelow | src/edu/oregonstate/cartography/grid/ESRIASCIIGridExporter.java:55-58 | the loop ends with the first of -9999, -99999, ... below the minimum |
| AsciiGridExporters.FindVoidValue | src/edu/oregonstate/cartography/grid/ESRIASCIIGridExporter.java:53-60 | the sentinel is -(10^k - 1) with k >= 4, lies strictly below every value, and is the first such candidate |
| AsciiGridExporters.DecimalText | src/edu/oregonstate/cartography/grid/ESRIASCIIGridExporter.java:27-28 | the decimal text of a count is a non-empty string of digits |
| AsciiGridExporters.DecimalTextValue | src/edu/oregonstate/cartography/grid/ESRIASCIIGridExporter.java:27-28 | the decimal text of n denotes n |
| AsciiGridExporters.JoinTokensAppend | src/edu/oregonstate/cartography/grid/ESRIASCIIGridExporter.java:36-42 | one more token adds the token and a space |
| AsciiGridExporters.JoinLinesAppend | src/edu/oregonstate/cartography/grid/ESRIASCIIGridExporter.java:33-45 | one more line adds the line and the separator |
| AsciiGridExporters.JoinLinesConcat | src/edu/oregonstate/cartography/grid/ESRIASCIIGridExporter.java:27-45 | the header and the body are written one after the other |
| AsciiGridExporters.RowTokens | src/edu/oregonstate/cartography/grid/ESRIASCIIGridExporter.java:36-42 | one token per cell; a void cell is written as the sentinel |
| AsciiGridExporters.HeaderLines | src/edu/oregonstate/cartography/grid/ESRIASCIIGridExporter.java:27-32 | six header lines: ncols, nrows, xllcorner, yllcorner, cellsize and nodata_value, each keyword followed by a space and its value |
| AsciiGridExporters.BodyLines | src/edu/oregonstate/cartography/grid/ESRIASCIIGridExporter.java:33-45 | one line per row, its tokens each followed by a space |
| AsciiGridExporters.HeaderText | src/edu/oregonstate/cartography/grid/ESRIASCIIGridExporter.java:27-32 | the six header lines are written one after another, each followed by the line separator |
| AsciiGridExporters.ExportHeader | src/edu/oregonstate/cartography/grid/ESRIASCIIGridExporter.java:27-32 | the six header writes |
| AsciiGridExporters.BodyStep | src/edu/oregonstate/cartography/grid/ESRIASCIIGridExporter.java:33-45 | one more row adds its line and a separator |
| AsciiGridExporters.ExportRow | src/edu/oregonstate/cartography/grid/ESRIASCIIGridExporter.java:36-42 | the tokens of row r, each followed by a space |
| AsciiGridExporters.ExportBody | src/edu/oregonstate/cartography/grid/ESRIASCIIGridExporter.java:33-45 | every row's line, rows in order, each followed by the separator |
| AsciiGridExporters.ExportLine | src/edu/oregonstate/cartography/grid/ESRIASCIIGridExporter.java:35-43 | one iteration of the row loop extends the text of rows 0 to r - 1 to the text of rows 0 to r |
| AsciiGridExporters.Export | src/edu/oregonstate/cartography/grid/ESRIASCIIGridExporter.java:20-51 | the file is the header, then the body, written with the chosen sentinel |
| AsciiGridExporters.TokenLengthAtSpace | src/edu/oregonstate/cartography/grid/ESRIASCIIGridExporter.java:36-42 | a token followed by a space is read back whole |
| AsciiGridExporters.TokensOfJoin | src/edu/oregonstate/cartography/grid/ESRIASCIIGridExporter.java:36-42 | the tokenizer splits a written line back into its tokens |
| AsciiGridExporters.FlattenLength | src/edu/oregonstate/cartography/grid/ESRIASCIIGridExporter.java:33-45 | a rows x cols raster has rows * cols values in row-major order |
| AsciiGridExporters.FlattenIndex | src/edu/oregonstate/cartography/grid/ESRIASCIIGridExporter.java:33-45 | cell (r, c) is value r * cols + c of that order |
| AsciiGridExporters.FlattenRaster | src/edu/oregonstate/cartography/grid/ESRIASCIIGridExporter.java:33-45 | writing rows out and laying the values out again gives back the raster |
| AsciiGridExporters.RowDecodes | src/edu/oregonstate/cartography/grid/ESRIASCIIGridExporter.java:36-41 | every written token parses and decodes to its cell: void to void, a value to itself |
| AsciiGridExporters.LineFits | src/edu/oregonstate/cartography/grid/EsriASCIIGridReader.java:250-265 | a line whose tokens all parse and fit is stored without exception |
| AsciiGridExporters.RowStored | src/edu/oregonstate/cartography/grid/ESRIASCIIGridExporter.java:33-45 | reading row i's written line, after rows 0 to i - 1, adds exactly that row's cells |
| AsciiGridExporters.LineOfRowStored | src/edu/oregonstate/cartography/grid/ESRIASCIIGridExporter.java:35-43 | reading the written line of a row whose values lie above the void value, after the cells `acc`, stores `acc` followed by exactly that row's cells, without exception |
| AsciiGridExporters.ConsumeBody | src/edu/oregonstate/cartography/grid/ESRIASCIIGridExporter.java:33-45 | the reader consumes the written body from row i on and stores the rest of the cells without exception |
| AsciiGridExporters.RowsFit | src/edu/oregonstate/cartography/grid/ESRIASCIIGridExporter.java:33-45 | rows 0 to i fit in the grid, with room left before the last row |
| AsciiGridExporters.ExportRoundTrip | src/edu/oregonstate/cartography/grid/ESRIASCIIGridExporter.java:20-60 | when float printing and parsing invert each other, the reader consuming the exported body stores every cell in place, exactly the void cells as void, with no exception and no abort |
| WorldFiles.LastIndexOf | src/edu/oregonstate/cartography/grid/WorldFileExporter.java:80 | the index of the last occurrence, or -1 when there is none |
| WorldFiles.FileExtension | src/edu/oregonstate/cartography/grid/WorldFileExporter.java:92-98 | "" when the name has no dot; otherwise the text after a dot, with no dot in it |
| WorldFiles.ReplaceExtension | src/edu/oregonstate/cartography/grid/WorldFileExporter.java:79-85 | a path without a dot gets "." + ext; otherwise the prefix through the last dot followed by ext |
| WorldFiles.LastDotBeforeSuffix | src/edu/oregonstate/cartography/grid/WorldFileExporter.java:79-98 | before a dot-free suffix, the last dot is the one in front of it |
| WorldFiles.ReplaceThenGetExtension | src/edu/oregonstate/cartography/grid/WorldFileExporter.java:79-98 | the extension of a path whose extension was replaced by a dot-free e is e |
| WorldFiles.WorldFileExtension | src/edu/oregonstate/cartography/grid/WorldFileExporter.java:32-45 | "w" for no extension, ext + "w" for one or two characters, first + last + "w" otherwise; it always ends in 'w' and has at most three characters |
| WorldFiles.ConstructedExtension | src/edu/oregonstate/cartography/grid/WorldFileExporter.java:30-47 | the extension of a constructed world-file path ends in 'w' and has at most three characters |
| WorldFiles.TifExample | src/edu/oregonstate/cartography/grid/WorldFileExporter.java:30-47 | "a.tif" gets the world file "a.tfw" |
| WorldFiles.WorldFileValues | src/edu/oregonstate/cartography/grid/WorldFileExporter.java:56-61 | the six values: the pixel width cellSize, two zero rotation terms, the pixel height -cellSize, then west and north |
| WorldFiles.WorldFileLines | src/edu/oregonstate/cartography/grid/WorldFileExporter.java:56-61 | six lines: the text of cellSize, "0", "0", the text of -cellSize, of west and of north |
| WorldFiles.WorldFilePlacesPixels | src/edu/oregonstate/cartography/grid/WorldFileExporter.java:56-61 | the six values cellSize, 0, 0, -cellSize, west, north map pixel (col, row) to (west + col * cellSize, north - row * cellSize) |
| GridStandardDeviationOperators.FilterSize | src/edu/oregonstate/cartography/grid/operators/GridStandardDeviationOperator.java:28-30 | `levels * 16 + 1` in 32-bit arithmetic: always odd; for levels in [-2^27, 2^27) it is the exact value, at least 1 exactly when levels >= 0 |
| GridStandardDeviationOperators.FilterSizeWraps | src/edu/oregonstate/cartography/grid/operators/GridStandardDeviationOperator.java:28-30 | from 2^27 levels on the product wraps: 2^27 levels give a negative size and 2^28 levels a one-cell window |
| GridStandardDeviationOperators.HalfFilterSize | src/edu/oregonstate/cartography/grid/operators/GridStandardDeviationOperator.java:44-45 | Java's truncating division: a non-negative size is 2h + 1 with h >= 0, a negative one 2h - 1 with h < 0, and h is 8 * levels for levels in [0, 2^27) |
| GridStandardDeviationOperators.HighPassWeights | src/edu/oregonstate/cartography/grid/operators/GridStandardDeviationOperator.java:58-63 | one weight per pyramid level |
| GridStandardDeviationOperators.CreateHighPassWeights | src/edu/oregonstate/cartography/grid/operators/GridStandardDeviationOperator.java:58-63 | weight i is 1 for i < levels and 0 after |
| GridStandardDeviationOperators.Square | src/edu/oregonstate/cartography/grid/operators/GridStandardDeviationOperator.java:98-100 | the square is void exactly when the difference is, and never negative |
| GridStandardDeviationOperators.RowSquares | src/edu/oregonstate/cartography/grid/operators/GridStandardDeviationOperator.java:96-102 | the row sum has a value exactly when every cell of the row span has one, and is never negative |
| GridStandardDeviationOperators.WindowSquares | src/edu/oregonstate/cartography/grid/operators/GridStandardDeviationOperator.java:94-104 | the window sum has a value exactly when every cell of the window has one, and is never negative |
| GridStandardDeviationOperators.BorderRowSquares | src/edu/oregonstate/cartography/grid/operators/GridStandardDeviationOperator.java:127-140 | the border row sum adds only counted neighbours and is never negative |
| GridStandardDeviationOperators.BorderWindowSquares | src/edu/oregonstate/cartography/grid/operators/GridStandardDeviationOperator.java:125-141 | the border window sum is never negative |
| GridStandardDeviationOperators.Deviation | src/edu/oregonstate/cartography/grid/operators/GridStandardDeviationOperator.java:106-108 | the deviation is void exactly when the sum is, and otherwise the root of the sum over the window's cell count |
| GridStandardDeviationOperators.WindowCells | src/edu/oregonstate/cartography/grid/operators/GridStandardDeviationOperator.java:92 | `filterSize * filterSize` in 32-bit arithmetic is odd and so never 0, and is the exact square for sizes up to 46340 |
| GridStandardDeviationOperators.BorderRowAgrees | src/edu/oregonstate/cartography/grid/operators/GridStandardDeviationOperator.java:127-140 | where every column is counted, the border row sum is the interior row sum |
| GridStandardDeviationOperators.BorderAgreesWithInterior | src/edu/oregonstate/cartography/grid/operators/GridStandardDeviationOperator.java:114-145 | a window off row 0 and column 0 with every source cell valid gives the border rule the interior rule's sum |
| GridStandardDeviationOperators.BorderRowIgnores | src/edu/oregonstate/cartography/grid/operators/GridStandardDeviationOperator.java:131-135 | the border row sum ignores high-pass cells that are not counted |
| GridStandardDeviationOperators.BorderIgnoresUncounted | src/edu/oregonstate/cartography/grid/operators/GridStandardDeviationOperator.java:127-141 | row 0, column 0, cells outside the grid and void source cells do not enter the border sum |
| GridStandardDeviationOperators.BorderValueMatchesInterior | src/edu/oregonstate/cartography/grid/operators/GridStandardDeviationOperator.java:114-145 | on a void-free grid, away from row 0 and column 0, the border rule gives the interior value |
| GridStandardDeviationOperators.InteriorVoidSpreads | src/edu/oregonstate/cartography/grid/operators/GridStandardDeviationOperator.java:90-110 | the interior rule has no void test: one void high-pass cell in the window voids the result |
| GridStandardDeviationOperators.DeviationCells | src/edu/oregonstate/cartography/grid/operators/GridStandardDeviationOperator.java:65-110 | every output cell is assigned: by the border rule near an edge, by the interior rule elsewhere |
| GridStandardDeviationOperators.Operate | src/edu/oregonstate/cartography/grid/operators/GridStandardDeviationOperator.java:38-112 | null throws; an index exception exactly when the half window size is negative, exceeds the row count, or exceeds the column count while interior rows exist; otherwise a fresh grid of the input's shape, cell size and position holds `DeviationCells`; the input is unchanged |
| GridStandardDeviationOperators.FillDeviations | src/edu/oregonstate/cartography/grid/operators/GridStandardDeviationOperator.java:65-110 | once the index checks pass, the border and interior loops together leave the new grid holding `DeviationCells` of the input grid and the high-pass raster, with a positive window size |
| GridStandardDeviationOperators.BorderRows | src/edu/oregonstate/cartography/grid/operators/GridStandardDeviationOperator.java:65-76 | the top or bottom row loop: the border value in every column of its rows, other rows unchanged |
| GridStandardDeviationOperators.BorderRowSpan | src/edu/oregonstate/cartography/grid/operators/GridStandardDeviationOperator.java:66-69 | every column of one row gets its border value |
| GridStandardDeviationOperators.BorderColumns | src/edu/oregonstate/cartography/grid/operators/GridStandardDeviationOperator.java:77-88 | the left or right column loop: the border value in its columns of the middle rows, other cells unchanged |
| GridStandardDeviationOperators.BorderColumnSpan | src/edu/oregonstate/cartography/grid/operators/GridStandardDeviationOperator.java:78-81 | the middle rows of one column get their border value |
| GridStandardDeviationOperators.OperateBorder | src/edu/oregonstate/cartography/grid/operators/GridStandardDeviationOperator.java:114-145 | `operateBorder` stores the border value at (row, col) and nothing else |
| GridStandardDeviationOperators.BorderSum | src/edu/oregonstate/cartography/grid/operators/GridStandardDeviationOperator.java:125-141 | the window loops give the border window sum |
| GridStandardDeviationOperators.BorderRow | src/edu/oregonstate/cartography/grid/operators/GridStandardDeviationOperator.java:127-140 | the column loop gives the border row sum |
| GridStandardDeviationOperators.Interior | src/edu/oregonstate/cartography/grid/operators/GridStandardDeviationOperator.java:90-110 | every interior cell gets its interior value, border cells unchanged |
| GridStandardDeviationOperators.InteriorRow | src/edu/oregonstate/cartography/grid/operators/GridStandardDeviationOperator.java:91-109 | the interior columns of one row get their interior value |
| GridStandardDeviationOperators.InteriorCellAt | src/edu/oregonstate/cartography/grid/operators/GridStandardDeviationOperator.java:96-108 | cell (row, col) gets the deviation of the squared high-pass values in its window; no other cell changes |
| GridStandardDeviationOperators.WindowSum | src/edu/oregonstate/cartography/grid/operators/GridStandardDeviationOperator.java:94-104 | the window loops give the window sum |
| Shaders.Vector | src/edu/oregonstate/cartography/grid/operators/ShaderOperator.java:84 | three numbers form a defined vector |
| Shaders.Plus | src/edu/oregonstate/cartography/grid/operators/ShaderOperator.java:49-51 | the sum of defined vectors is defined |
| Shaders.Cross | src/edu/oregonstate/cartography/grid/operators/ShaderOperator.java:49-51 | the cross product of defined vectors is defined |
| Shaders.Dot | src/edu/oregonstate/cartography/grid/operators/ShaderOperator.java:138 | the dot product is NaN exactly when a component is |
| Shaders.CrossPerpendicular | src/edu/oregonstate/cartography/grid/operators/ShaderOperator.java:49-51 | the cross product is perpendicular to both factors |
| Shaders.CrossAntisymmetric | src/edu/oregonstate/cartography/grid/operators/ShaderOperator.java:49-51 | swapping the factors negates the cross product |
| Shaders.Normalized | src/edu/oregonstate/cartography/grid/operators/ShaderOperator.java:93 | normalising a vector with a NaN component gives NaN components |
| Shaders.QuadrantSumClosedForm | src/edu/oregonstate/cartography/grid/operators/ShaderOperator.java:76-90 | the four quadrant products sum to (2 cs (eW - eE), 2 cs (eS - eN), 4 cs²), whose vertical part is positive |
| Shaders.QuadrantSumVoid | src/edu/oregonstate/cartography/grid/operators/ShaderOperator.java:76-90 | the quadrant sum is defined exactly when the four neighbour differences are |
| Shaders.BorderNormalIsVertical | src/edu/oregonstate/cartography/grid/operators/ShaderOperator.java:94-99 | cells of the first or last row or column get the normal (0, 0, 1) |
| Shaders.NoExaggerationIsVertical | src/edu/oregonstate/cartography/grid/operators/ShaderOperator.java:77-93 | with exaggeration 0 an interior cell's normal is the normalised (0, 0, 4 cs²) |
| Shaders.VoidNeighbourhoodGivesVoidNormal | src/edu/oregonstate/cartography/grid/operators/ShaderOperator.java:70-93 | a void centre or neighbour of an interior cell gives an undefined normal |
| Shaders.MetricCellSize | src/edu/oregonstate/cartography/grid/operators/ShaderOperator.java:121-125 | cell sizes below 0.1 are degrees converted by π · 6371000 / 180; others are used unchanged |
| Shaders.MetricCellSizeScale | src/edu/oregonstate/cartography/grid/operators/ShaderOperator.java:121-125 | the converted size is over 100000 times the degree size |
| Shaders.Gray | src/edu/oregonstate/cartography/grid/operators/ShaderOperator.java:141 | a dot product in [-1, 1] gives a gray in [0, 255], -1 gives 0 and 1 gives 255 |
| Shaders.GrayMonotonic | src/edu/oregonstate/cartography/grid/operators/ShaderOperator.java:141 | a surface facing the light more directly is brighter |
| Shaders.ShadeCell | src/edu/oregonstate/cartography/grid/operators/ShaderOperator.java:138-141 | the stored gray is void exactly when the dot product is NaN |
| Shaders.Vector3D.constructor | src/edu/oregonstate/cartography/grid/operators/ShaderOperator.java:118 | a vector of the given components |
| Shaders.Vector3D.SetVectorProduct | src/edu/oregonstate/cartography/grid/operators/ShaderOperator.java:84 | the vector becomes v1 × v2 |
| Shaders.Vector3D.AddVectorProduct | src/edu/oregonstate/cartography/grid/operators/ShaderOperator.java:47-52 | v1 × v2 is added to the vector, component by component |
| Shaders.Vector3D.Normalize | src/edu/oregonstate/cartography/grid/operators/ShaderOperator.java:93 | the vector becomes its normalisation |
| Shaders.ShaderOperator.constructor | src/edu/oregonstate/cartography/grid/operators/ShaderOperator.java:15-33 | light from azimuth 315 and zenith 45, no exaggeration |
| Shaders.ShaderOperator.SetIlluminationAzimuth | src/edu/oregonstate/cartography/grid/operators/ShaderOperator.java:154-156 | stores the azimuth, nothing else changes |
| Shaders.ShaderOperator.SetIlluminationZenith | src/edu/oregonstate/cartography/grid/operators/ShaderOperator.java:161-163 | stores the zenith, nothing else changes |
| Shaders.ShaderOperator.SetVerticalExaggeration | src/edu/oregonstate/cartography/grid/operators/ShaderOperator.java:165-167 | stores the exaggeration, nothing else changes |
| Shaders.ShaderOperator.ComputeTerrainNormal | src/edu/oregonstate/cartography/grid/operators/ShaderOperator.java:66-100 | the normal left in `n` is the terrain normal of the specification |
| Shaders.ShaderOperator.ShadeRow | src/edu/oregonstate/cartography/grid/operators/ShaderOperator.java:132-142 | every column of the row gets its shading, other rows unchanged |
| Shaders.ShaderOperator.Operate | src/edu/oregonstate/cartography/grid/operators/ShaderOperator.java:111-144 | every column of rows [startRow, endRow) gets the shading of its cell, with a cell size in degrees converted; all other rows keep their values |
| GridDiffDivOperators.DiffDivCell | src/edu/oregonstate/cartography/grid/operators/GridDiffDivOperator.java:38-39 | a value exactly when a, b and c are values and c ≠ -1, and then d (c + 1) = a - b; infinities and NaN become void |
| GridDiffDivOperators.DiffDivCells | src/edu/oregonstate/cartography/grid/operators/GridDiffDivOperator.java:27-41 | every cell of grid1's shape is its difference quotient |
| GridDiffDivOperators.DiffDivRow | src/edu/oregonstate/cartography/grid/operators/GridDiffDivOperator.java:32-40 | row r of the new grid holds the quotients, other rows unchanged |
| GridDiffDivOperators.Operate | src/edu/oregonstate/cartography/grid/operators/GridDiffDivOperator.java:17-43 | a null grid throws IllegalArgumentException; a second or third grid smaller than the first is an index exception; otherwise a fresh grid with grid1's shape, cell size, west and south holds the quotients |
| GridDiffDivOperators.OperateSingle | src/edu/oregonstate/cartography/grid/operators/GridDiffDivOperator.java:46-48 | the one-grid `operate` always throws UnsupportedOperationException |
| GridCopyOperators.CopyRows | src/edu/oregonstate/cartography/grid/operators/GridCopyOperator.java:12-18 | the intended result: rows [startRow, endRow) from the source, all other rows from the destination |
| GridCopyOperators.CopyRowOnto | src/edu/oregonstate/cartography/grid/operators/GridCopyOperator.java:14-16 | `System.arraycopy` of one row: that row of the target takes the source row, every other cell is unchanged |
| GridCopyOperators.OperateAsWritten | src/edu/oregonstate/cartography/grid/operators/GridCopyOperator.java:12-18 | as written every visited source row is copied onto itself: the source is unchanged and the destination is never written |
| GridCopyOperators.AsWrittenMissesCopy | src/edu/oregonstate/cartography/grid/operators/GridCopyOperator.java:14-16 | a chunk holding a row where source and destination differ was meant to change the destination |
| GridCopyOperators.AsWrittenCounterexample | src/edu/oregonstate/cartography/grid/operators/GridCopyOperator.java:14-16 | two 3 x 3 grids of 1 and 0 with the chunk [0, 1): the intended copy differs from the untouched destination |
| GridCopyOperators.Operate | src/edu/oregonstate/cartography/grid/operators/GridCopyOperator.java:12-18 | as intended, the destination becomes `CopyRows` of source and destination, and a distinct source is unchanged |
| IlluminatedContours.AngleDifference | src/edu/oregonstate/cartography/grid/operators/IlluminatedContoursOperator.java:235-241 | the angle difference is NaN exactly when the aspect is, and otherwise lies in [0, 180] |
| IlluminatedContours.TurnGap | src/edu/oregonstate/cartography/grid/operators/IlluminatedContoursOperator.java:239 | the distance of an angle from k full turns is never negative |
| IlluminatedContours.AngleDifferenceIsDistance | src/edu/oregonstate/cartography/grid/operators/IlluminatedContoursOperator.java:235-241 | the result is the angular distance between the light's geometric angle and the aspect: at most the gap to any multiple of 360 and equal to the gap to one |
| IlluminatedContours.LineWidth | src/edu/oregonstate/cartography/grid/operators/IlluminatedContoursOperator.java:260-262 | width * slope * cellSize is NaN exactly when the slope is |
| IlluminatedContours.JavaMax | src/edu/oregonstate/cartography/grid/operators/IlluminatedContoursOperator.java:269 | `Math.max` is NaN when either argument is, and otherwise the larger one |
| IlluminatedContours.HalfWidth | src/edu/oregonstate/cartography/grid/operators/IlluminatedContoursOperator.java:259-269 | the half-width is never below minWidth * slope * cellSize; it is NaN with tanaka and a NaN angle, and a number without tanaka and a valid slope |
| IlluminatedContours.Residual | src/edu/oregonstate/cartography/grid/operators/IlluminatedContoursOperator.java:273-276 | the residual is NaN exactly when the elevation is void or the interval is 0 |
| IlluminatedContours.ContourDistance | src/edu/oregonstate/cartography/grid/operators/IlluminatedContoursOperator.java:273-276 | the distance to the nearest contour lies in [0, interval / 2] |
| IlluminatedContours.OnLineNearContour | src/edu/oregonstate/cartography/grid/operators/IlluminatedContoursOperator.java:273-278 | apart from a residual exactly equal to a, a cell is on a line exactly when its distance to the nearest contour is below the half-width |
| IlluminatedContours.DarkFrom | src/edu/oregonstate/cartography/grid/operators/IlluminatedContoursOperator.java:279 | `90 + gradientAngle` in 32-bit arithmetic, the exact sum whenever it fits |
| IlluminatedContours.LitUpTo | src/edu/oregonstate/cartography/grid/operators/IlluminatedContoursOperator.java:281 | `90 - gradientAngle` in 32-bit arithmetic, the exact difference whenever it fits |
| IlluminatedContours.LineTone | src/edu/oregonstate/cartography/grid/operators/IlluminatedContoursOperator.java:278-285 | angleDiff >= DarkFrom gives 0; angleDiff <= LitUpTo gives illuminatedGray, or 0 when not illuminated; in between the blend lies in [0, 255) while DarkFrom - LitUpTo fits in an int, and is 255 or more once that span wraps |
| IlluminatedContours.ThresholdsWithoutOverflow | src/edu/oregonstate/cartography/grid/operators/IlluminatedContoursOperator.java:279-281 | for gradient angles in [-2^31 + 91, 2^31 - 91] the thresholds are the exact 90 + gradientAngle and 90 - gradientAngle |
| IlluminatedContours.LargestGradientIsBlack | src/edu/oregonstate/cartography/grid/operators/IlluminatedContoursOperator.java:279 | at gradient angle 2^31 - 1 the sum wraps negative and every angle difference in [0, 180] is black, although it lies strictly between the exact thresholds |
| IlluminatedContours.Blend | src/edu/oregonstate/cartography/grid/operators/IlluminatedContoursOperator.java:284 | with the band's span in 32-bit arithmetic, a span that fits in an int gives a gray in [0, 255) and a wider, wrapped span gives 255 or more |
| IlluminatedContours.BlendInRange | src/edu/oregonstate/cartography/grid/operators/IlluminatedContoursOperator.java:284 | the blend lies strictly between 0 and 255 inside the gradient band |
| IlluminatedContours.BlendWrapped | src/edu/oregonstate/cartography/grid/operators/IlluminatedContoursOperator.java:284 | with a wrapped, negative span the blend exceeds 255 |
| IlluminatedContours.NoBlendWithoutGradient | src/edu/oregonstate/cartography/grid/operators/IlluminatedContoursOperator.java:278-285 | a gradient angle of 0 or less leaves the blend branch unreachable for every angle difference in [0, 180] |
| IlluminatedContours.ComputeGray | src/edu/oregonstate/cartography/grid/operators/IlluminatedContoursOperator.java:252-288 | the result is transparent, illuminatedGray or a non-negative tone, and a cell off every line is transparent |
| IlluminatedContours.TransparentExactlyOffLine | src/edu/oregonstate/cartography/grid/operators/IlluminatedContoursOperator.java:273-287 | with a valid aspect and a non-negative illuminated gray, the result is transparent exactly when the half-width a is not above the mirrored residual |
| IlluminatedContours.VoidIsTransparent | src/edu/oregonstate/cartography/grid/operators/IlluminatedContoursOperator.java:259-287 | a void elevation or slope is never drawn |
| IlluminatedContours.ArgbChannels | src/edu/oregonstate/cartography/grid/operators/IlluminatedContoursOperator.java:166 | a packed gray below 256 has red = green = blue = g and alpha 0xFF |
| IlluminatedContours.PaintGray | src/edu/oregonstate/cartography/grid/operators/IlluminatedContoursOperator.java:165-167 | a gray in [0, 255] is packed as itself |
| IlluminatedContours.AspectDegrees | src/edu/oregonstate/cartography/grid/operators/IlluminatedContoursOperator.java:162 | the aspect in degrees is NaN exactly when the aspect is |
| IlluminatedContours.StopRow | src/edu/oregonstate/cartography/grid/operators/IlluminatedContoursOperator.java:131-135 | the scaled loop stops at the first row at which the progress reports a cancel, or runs to the end |
| IlluminatedContours.BlocksDisjoint | src/edu/oregonstate/cartography/grid/operators/IlluminatedContoursOperator.java:215-217 | distinct cells or sub-cells write distinct pixels: the scale x scale blocks are disjoint |
| IlluminatedContours.CellIndex | src/edu/oregonstate/cartography/grid/operators/IlluminatedContoursOperator.java:167 | pixel row * width + col is the one in row `row` and column `col` |
| IlluminatedContours.BlockIndex | src/edu/oregonstate/cartography/grid/operators/IlluminatedContoursOperator.java:215-217 | the pixel of sub-cell (c, r) of cell (col, row) lies in block (col, row) at sub-position (c, r) |
| IlluminatedContours.BlockPixelInRange | src/edu/oregonstate/cartography/grid/operators/IlluminatedContoursOperator.java:215-217 | every block pixel lies in an image at least scale times the grid's size |
| IlluminatedContours.Image.constructor | src/edu/oregonstate/cartography/grid/operators/IlluminatedContoursOperator.java:50 | a row-major pixel buffer of width x height |
| IlluminatedContours.IlluminatedContoursOperator.constructor | src/edu/oregonstate/cartography/grid/operators/IlluminatedContoursOperator.java:64-83 | stores the style; no image and no progress yet |
| IlluminatedContours.IlluminatedContoursOperator.RenderToImage | src/edu/oregonstate/cartography/grid/operators/IlluminatedContoursOperator.java:94-102 | a null image throws and changes nothing; otherwise image and progress are stored |
| IlluminatedContours.IlluminatedContoursOperator.Operate | src/edu/oregonstate/cartography/grid/operators/IlluminatedContoursOperator.java:113-149 | rows max(1, start) to min(rows - 2, end) and columns 1 to cols - 2 are drawn, unscaled or as scale x scale blocks up to the first cancelled row; every other pixel keeps its value |
| IlluminatedContours.IlluminatedContoursOperator.DrawUnscaled | src/edu/oregonstate/cartography/grid/operators/IlluminatedContoursOperator.java:120-124 | the unscaled row loop paints the gray of each visited cell at its own pixel |
| IlluminatedContours.IlluminatedContoursOperator.DrawRow | src/edu/oregonstate/cartography/grid/operators/IlluminatedContoursOperator.java:121-123 | the column loop of one unscaled row |
| IlluminatedContours.IlluminatedContoursOperator.IlluminatedContours | src/edu/oregonstate/cartography/grid/operators/IlluminatedContoursOperator.java:160-169 | pixel (col, row) gets the cell's gray packed as ARGB unless it is transparent; every other pixel is unchanged |
| IlluminatedContours.IlluminatedContoursOperator.PaintPixel | src/edu/oregonstate/cartography/grid/operators/IlluminatedContoursOperator.java:165-167 | a transparent value leaves the pixel; any other value is packed into it |
| IlluminatedContours.IlluminatedContoursOperator.DrawScaled | src/edu/oregonstate/cartography/grid/operators/IlluminatedContoursOperator.java:131-147 | the scaled row loop, stopping at the first cancelled row, paints each visited cell's block |
| IlluminatedContours.ScaledPixelExtend | src/edu/oregonstate/cartography/grid/operators/IlluminatedContoursOperator.java:131-147 | drawing rows [rowLo, row) and then row `row` leaves every pixel as drawing rows [rowLo, row + 1) does |
| IlluminatedContours.IlluminatedContoursOperator.DrawScaledRow | src/edu/oregonstate/cartography/grid/operators/IlluminatedContoursOperator.java:144-146 | the blocks of columns 1 to cols - 2 of one row |
| IlluminatedContours.IlluminatedContoursOperator.ScaledIlluminatedContours | src/edu/oregonstate/cartography/grid/operators/IlluminatedContoursOperator.java:181-221 | only the block [col s, col s + s) x [row s, row s + s) of cell (col, row) is written, each pixel with its sub-cell's gray |
| IlluminatedContours.IlluminatedContoursOperator.DrawSubcellRow | src/edu/oregonstate/cartography/grid/operators/IlluminatedContoursOperator.java:190-219 | sub-row r of the cell's block |
| IlluminatedContours.IlluminatedContoursOperator.DrawSubcell | src/edu/oregonstate/cartography/grid/operators/IlluminatedContoursOperator.java:192-218 | pixel (col s + c, row s + r) gets the sub-cell's gray unless it is transparent |

## Left out

- Threads: the reader's Producer and Consumer threads, its queue, join and interrupt, and the row-chunk fan-out of the threaded operators are left out, because only sequential behaviour is modelled. The consumer is a sequential function over the list of lines, and each operator is modelled by its per-chunk body.
- File and image I/O: file readers and writers, `BufferedImage`, `Graphics2D` and the image rendering of `Model` are left out; the contour image is a row-major array of 32-bit pixels.
- Float rounding: cells are unbounded reals, so single-precision rounding and overflow to infinity are left out. NaN arises only where the model shows it as void; a quotient or sum that would overflow to infinity, and the NaN that infinities can then produce, is an exact real here. In the difference quotient only the zero divisor `c = -1` is void; a finite quotient too large for a float is a value.
- Library numerics: `Float.parseFloat`, `Float.toString`, `Double.toString`, `sqrt`, `cos`, `atan2`, vector normalisation and the conversion from azimuth and zenith to a light vector are function parameters, because their numeric content is not part of this model.
- Classes outside this model: `Convolution5x5` (the reduction is a parameter that halves the shape), `GridHeaderImporter` (the header is a value), and `Vector3D` (the cross product and addition are modelled, normalisation and the light vector are parameters). `GridScaleToRangeOperator`, `GridSlopeOperator`, the Gaussian low-pass and the standard-deviation operator used by the caches are classes outside this model: the first two are the `Operators` of `Model`, and the scale, low-pass, standard-deviation and difference-quotient operators are the `Operators` of `LocalGridModel`. `Math.PI` is the decimal constant `MathPI`.
- `LaplacianPyramid.sumLevels(float[])` and `createConstantWeights` are called by `Model` and the standard-deviation operator but are absent. `Model.updateGeneralizedGrid` passes its weight array straight to the sum (`SumValues` with the array's contents), and the high-pass band of the standard-deviation operator is a parameter computed from the high-pass weights.
- `Grid.clone()`, called by `sumLevels`, is modelled as the deep copy of the copy constructor; the `GridScaleOperator(1.0)` that follows it is an identity.
- `Model.setupIlluminatedContoursOperator` calls a 14-argument constructor that the contour operator does not declare; only the 9-argument constructor is modelled.
- AsciiGridReaders.Read: the re-raised IOException carries the cause's message, where Java's `new IOException(cause)` uses the cause's `toString`, class name included.
- Progress reporting: the reader's percentage and the contour renderer's percentage are not modelled. Only the indicator's answer is, which aborts the reader and cancels the renderer.
- IlluminatedContours.IlluminatedContoursOperator.Operate: the image must be at least `scale` times the grid's size, because the model does not capture the array index exception that a smaller image would raise.
- GridStandardDeviationOperators.Operate: the index exception of a window larger than the grid is decided before any cell is written, where the code would have written some border cells first.
- GridDiffDivOperators.Operate: a second or third grid smaller than the first ends at once with the index exception, where the code would have written the rows before it.
- Shaders.ShaderOperator.Operate: the destination must be a different grid from the source.
- Grids.Grid.BilinearInterpol: the column and row are exact truncations, so a point 2^31 or more cells from the grid is void. In Java the `(int)` cast saturates at `Integer.MAX_VALUE`, `col + 1` wraps negative, the range test passes and the array access throws ArrayIndexOutOfBoundsException. Arrays are not bounded by the `int` range here, so that exception is not modelled.
- Null arguments: array, grid and level parameters that Java could receive as null are non-null here, except where the model names the null case (`Grid?`, `Option`). So the NullPointerException of `LaplacianPyramid.setWeights(null)` (LaplacianPyramid.java:338-340) and of `createPyramid` on a null Gaussian level is not modelled.
- Exception messages: `IllegalArgument("")` stands for an IllegalArgumentException created without a message (a null message in Java), as thrown by the difference-quotient and standard-deviation operators, `Model.setGeneralizationDetails` and `renderToImage`.
- Models.Model.UpdateGeneralizedGrid: Java rescales the summed grid in place; the model writes the rescaled cells into the same fresh grid object, so object identity is kept. The rescaled cells and the slope grid come from the `Operators` parameter, and the rescaling is required to keep the grid's shape.
- `Grid.getDescription`, `toString`, `getAspect(x, y, samplingDist)` and `getSlope(x, y, samplingDist)` are left out: they are text formatting or unused interpolating variants.
- `GaussianPyramid.getPyramid` and `GaussianPyramid.getValue(col, row, level)` are left out: they are plain accessors, and `Level` covers the index rule.
- `IlluminatedContoursOperator.renderToImage` hands the image to the threaded operator; the model stores the image and progress, and `Operate` is called per chunk.
- The commented-out threaded body of `GridStandardDeviationOperator` is dead code and left out.

## Findings

| source | as written | input that shows it | evidently intended | confidence | as-written member | corrected member |
|---|---|---|---|---|---|---|
| src/edu/oregonstate/cartography/grid/operators/GridCopyOperator.java:14-16 | both row arrays are taken from the source grid, so each visited row is copied onto itself and the destination is never written | two 3 x 3 grids, the source all 1.0 and the destination all 0.0, with the chunk [0, 1) | row r of the source is copied into row r of the destination | not executed | GridCopyOperators.OperateAsWritten | GridCopyOperators.Operate |
