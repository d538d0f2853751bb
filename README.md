# Floor-plan occupancy core, modelled in Dafny

This project models the integer and boolean core of a browser tool that turns
a floor-plan image into an occupancy grid and checks it for plausibility:

- **Morph** (`src/morph.js`): binary masks as flat row-major byte arrays.
  - Edge-mask thresholding and the cluster-membership mask.
  - 3x3 dilation and erosion, where reads outside the image are 0, and their
    compositions closing, opening and edge refinement.
  - Hole filling by a breadth-first flood of the inverted mask from the frame.
- **Occupancy** (`src/grid.js`): the `Grid` class.
  - `fromMask` and its majority vote over clipped square cells.
  - The wall and zone sets. They are insertion-ordered JavaScript `Set`s of
    `${c}_${r}` keys, kept here as duplicate-free sequences of `(c, r)` pairs.
  - The bundle round trip.
- **Pipeline** (`src/pipeline.js`): `runPipeline` after clustering and `suggestDoors`.
  - `runPipeline` picks the darkest cluster by default, ORs the cluster mask
    with the edge mask, then runs the morphology chain.
  - `suggestDoors` is the scan-line door heuristic. Door corners are reals
    because `cell/2` may be fractional.
- **Quality** (`src/quality.js`): `Quality.check`.
  A cell is walkable (`Walkable`) when it lies inside the grid and is not a
  wall; `WalkableCells` is the set of such cells, the open cells of both floods.
  The check covers:
  - calibration and site warnings;
  - seed search and breadth-first reachability flood;
  - unreachable sites, the coverage ratio and start/site gaps;
  - the alerts in push order.
- **Undo** (`src/undo.js`): `CommandStack`.
  - Commands are pairs of functions from a state to an outcome, which either
    completes or throws. Either way it leaves a state behind.

Shared modules:

- `Raster` holds the flat index arithmetic.
- `Cells` holds the four-neighbour paths. It also holds the invariants of a
  breadth-first search, used by both the hole fill and the reachability flood.
- `Wrappers` is an `Option` type; `Seqs` is one sequence lemma.

Each imperative routine of the source is a Dafny method with the source's
loops. It is proved equal to a specification function, for example
`Dilated`, `HolesFilled`, `IsWall`, `RowDoors`, `Component`, `Gaps` or
`AfterUndo`. The properties the source promises are then proved about those
functions as lemmas.

The usual duality of binary morphology says that erosion is dilation of the
complement, complemented. The code does not keep it everywhere, and the
model follows the code. Because both operators pad with 0, that duality
holds only on pixels whose whole window lies inside the image. `DualityInside` proves it
there, and `DualityFailsOnFrame` shows it fails on the frame.

The quality check's flood has a bug (see "## Findings"): its seed cell is
seen only when a walkable neighbour adds it back. `Quality.Check` models the
check as written, bug included. `Quality.CheckCorrected` is the same check on
the corrected flood, and `ReachAsWrittenAgrees` proves that the two reach sets
differ only when the seed has no walkable neighbour.

## Model

| member | source | states |
|---|---|---|
| Morph.ThresholdImageFloat | src/morph.js:2-6 | the mask has width*height pixels; pixel i is 1 iff i is within `gray` and `gray[i] >= thr`, otherwise 0 |
| Morph.MaskFromClusters | src/morph.js:8-14 | the mask has width*height pixels; pixel i is 1 iff its cluster index is one of the selected ones; the tolerance has no effect |
| Morph.WindowAny | src/morph.js:21-22 | the nine-read OR is true iff some pixel of the 3x3 window is set, reading 0 outside the image |
| Morph.WindowAll | src/morph.js:33-34 | the nine-read AND is true iff every pixel of the 3x3 window is set, so a window crossing the frame fails |
| Morph.Dilate | src/morph.js:16-27 | the output is the dilation of the input: a pixel is 1 iff some pixel of its window is set |
| Morph.Erode | src/morph.js:28-39 | the output is the erosion of the input: a pixel is 1 iff every pixel of its window is set |
| Morph.Closing | src/morph.js:41-43 | the output is the erosion of the dilation of the input |
| Morph.Opening | src/morph.js:44-46 | the output is the dilation of the erosion of the input |
| Morph.EdgeRefine | src/morph.js:69-72 | the output is one erosion of the input |
| Morph.ErodedWithinInput | src/morph.js:28-39 | erosion only clears: a pixel set in the output is set in the input |
| Morph.InputWithinDilated | src/morph.js:16-27 | dilation only sets: a pixel set in the input is 1 in the output |
| Morph.ErodedClearsFrame | src/morph.js:30-34 | erosion clears every pixel of the image frame, because the window then reads a 0 outside the image |
| Morph.DualityInside | src/morph.js:16-39 | on a pixel whose window lies inside the image, erosion equals the complement of the dilation of the complement |
| Morph.DualityFailsOnFrame | src/morph.js:18-30 | for the all-set mask, erosion clears a frame pixel while the complement of the dilated complement keeps it set |
| Morph.Push | src/morph.js:54 | an in-image pixel of the inverted mask not yet visited is marked and queued; anything else changes nothing |
| Morph.SeedTopBottom | src/morph.js:55 | afterwards the marked pixels are exactly the clear pixels of the top and bottom rows; each is queued and the visited buffer marks exactly them |
| Morph.SeedLeftRight | src/morph.js:56 | afterwards the marked pixels are exactly the clear pixels of the frame; each is queued and the visited buffer marks exactly them |
| Morph.VisitNeighbours | src/morph.js:59 | pushing the four neighbours of a dequeued pixel marks and queues each clear neighbour not yet visited; it marks nothing but those neighbours, only pixels connected to the border are ever marked, and the old queue stays in front |
| Morph.Spread | src/morph.js:57-60 | when the queue is empty, the visited buffer marks exactly the clear pixels joined to the frame by a 4-connected path of clear pixels |
| Morph.MarkHoles | src/morph.js:62-65 | the output is a copy of the input with every clear, unvisited pixel set |
| Morph.FillHoles | src/morph.js:48-67 | the output is the input with every clear pixel that has no 4-connected clear path to the frame set to 1, and nothing else changed |
| Morph.FilledContainsInput | src/morph.js:62-65 | hole filling only sets pixels: set pixels keep their value, and any pixel either keeps its value or becomes 1 |
| Morph.FrameNeverFilled | src/morph.js:55-56 | a clear pixel on the frame is never filled |
| Morph.EnclosedPixelFilled | src/morph.js:57-65 | a clear pixel off the frame whose four neighbours are set is filled |
| Cells.NeighbourSymmetric | src/morph.js:59 | the four-neighbour relation used by both searches is symmetric |
| Cells.ClosedHoldsConnected | src/morph.js:57-60 | a set holding the open sources and closed under steps to open neighbours holds every connected cell |
| Cells.FloodingStep | src/quality.js:20-26 | dequeuing the head and pushing its unseen open neighbours keeps the search invariant |
| Cells.FloodingDone | src/quality.js:20-27 | with an empty queue and every open source seen, the seen set is exactly the open cells connected to a source |
| Raster.IndexInjective | src/morph.js:18 | the flat index `y*width+x` of in-image pixels is injective |
| Occupancy.SetAddElements | src/grid.js:34 | adding a key to a duplicate-free set keeps it duplicate-free, appends at most that key and keeps the old elements in front |
| Occupancy.SetDeleteElements | src/grid.js:35 | deleting a key leaves exactly the other elements and keeps the set duplicate-free |
| Occupancy.AddAllElements | src/grid.js:34 | adding a list of keys gives exactly the union, duplicate-free, with the old elements first in their old order |
| Occupancy.DeleteAllElements | src/grid.js:35 | deleting a list of keys gives exactly the old elements minus the keys, duplicate-free |
| Occupancy.AddAllDistinct | src/grid.js:30-31 | adding new, pairwise distinct keys appends them in their order |
| Occupancy.AddThenDelete | src/grid.js:34-35 | removing keys after adding them leaves the old elements minus the keys, which differs from the old set when they overlapped |
| Occupancy.CeilDivIsCeiling | src/grid.js:10 | the integer column count is the ceiling of width/cell, and a column index is below it iff its cell starts inside the image |
| Occupancy.WindowInside | src/grid.js:14 | the clipped window of every grid cell is non-empty and lies inside the image |
| Occupancy.WindowCountBounds | src/grid.js:15-20 | a window holds at most as many set pixels as it has pixels, and none in an all-zero mask |
| Occupancy.CountWindow | src/grid.js:16-20 | the count loop returns the number of set pixels of the window |
| Occupancy.VoteCrossMultiplied | src/grid.js:21 | on a non-empty window, `count/total >= occupancy` iff `count >= occupancy*total` |
| Occupancy.IsWallExtremes | src/grid.js:21 | with occupancy 0 every grid cell is a wall; an all-zero mask with positive occupancy has no wall |
| Occupancy.VoteRow | src/grid.js:13-24 | one row of votes adds, in column order, exactly the wall cells of that row |
| Occupancy.Grid.constructor | src/grid.js:2-7 | the fields are the arguments; walls and zones are empty |
| Occupancy.Grid.FromMask | src/grid.js:8-27 | cols and rows are the ceilings of width/cell and height/cell; zones are empty; the walls are exactly the in-grid cells whose share of set pixels reaches the occupancy, in row-major order |
| Occupancy.Grid.FromBundle | src/grid.js:28-33 | the fields are copied, and the listed wall and zone keys are added in order; a missing list adds nothing |
| Occupancy.Grid.AddWalls | src/grid.js:34 | the walls become the old walls with the keys added in order; nothing else changes |
| Occupancy.Grid.RemoveWalls | src/grid.js:35 | the walls become the old walls with the keys deleted; nothing else changes |
| Occupancy.Grid.AddZones | src/grid.js:36 | the zones become the old zones with the keys added in order; nothing else changes |
| Occupancy.Grid.RemoveZones | src/grid.js:37 | the zones become the old zones with the keys deleted; nothing else changes |
| Occupancy.Grid.ToBundle | src/grid.js:55-61 | the bundle carries cell, cols and rows, and always both lists; each list holds every key of its set exactly once, in insertion order |
| Occupancy.BundleRoundTrip | src/grid.js:55-61 | rebuilding a grid from its bundle gives back its cell, cols, rows, walls and zones, in the same order |
| Pipeline.Darkest | src/pipeline.js:10-15 | the index returned is the first one of the least centroid L value, or 0 without centroids |
| Pipeline.DarkestUnique | src/pipeline.js:12-13 | the darkest index is unique |
| Pipeline.Merge | src/pipeline.js:23-24 | a merged pixel is 1 iff the cluster mask or the edge mask is set there, and 0 otherwise |
| Pipeline.RunPipeline | src/pipeline.js:10-29 | without a selection the darkest cluster alone is selected; the result, of the image's size, is opening(edgeRefine(fillHoles(closing(merge)))) |
| Pipeline.HalfBack | src/pipeline.js:49 | `max(0, v - cell/2)` is non-negative and at least `v - cell/2` |
| Pipeline.MeasureRight | src/pipeline.js:47 | the span loop returns the length of the free run to the right |
| Pipeline.MeasureDown | src/pipeline.js:58 | the span loop returns the length of the free run downwards |
| Pipeline.RunRightFree | src/pipeline.js:47 | a run to the right covers only free pixels, stays in the image and ends at the edge or at a set pixel |
| Pipeline.RunDownFree | src/pipeline.js:58 | a run downwards covers only free pixels, stays in the image and ends at the edge or at a set pixel |
| Pipeline.ScanRow | src/pipeline.js:41-52 | one horizontal probe line yields exactly the row's doors, jumping past each door's run |
| Pipeline.ScanColumn | src/pipeline.js:56-63 | one vertical probe line yields exactly the column's doors, jumping past each door's run |
| Pipeline.ScanRows | src/pipeline.js:40-53 | the horizontal pass yields the doors of every cell-th row, top to bottom |
| Pipeline.ScanColumns | src/pipeline.js:55-64 | the vertical pass yields the doors of every cell-th column, left to right |
| Pipeline.SuggestDoors | src/pipeline.js:34-66 | all horizontal doors come first, then all vertical ones, without deduplication |
| Pipeline.RowDoorsWellFormed | src/pipeline.js:41-51 | every door of a row starts at an integer column in [cell, width-cell), is cell high and 1 to 2*cell wide, sits at max(0, y-cell/2), and is exactly as wide as the free run at its start (so that start pixel is free) |
| Pipeline.ColumnDoorsWellFormed | src/pipeline.js:56-62 | every door of a column starts at an integer row in [cell, height-cell), is cell wide and 1 to 2*cell high, sits at max(0, x-cell/2), and is exactly as high as the free run at its start |
| Pipeline.HorizontalDoorCoversFreeRun | src/pipeline.js:47-49 | a horizontal door covers only free pixels of its row and ends at the image edge or at a set pixel |
| Pipeline.VerticalDoorCoversFreeRun | src/pipeline.js:58-60 | a vertical door covers only free pixels of its column and ends at the image edge or at a set pixel |
| Pipeline.RowDoorsOrdered | src/pipeline.js:41-51 | the doors of one row are in increasing order, each ending at least cell columns before the next |
| Pipeline.ColumnDoorsOrdered | src/pipeline.js:56-62 | the doors of one column are in increasing order, each ending at least cell rows before the next |
| Pipeline.HorizontalDoorsShape | src/pipeline.js:40-53 | every horizontal door lies on a probe row `k*cell` and is well formed there |
| Pipeline.VerticalDoorsShape | src/pipeline.js:55-64 | every vertical door lies on a probe column `k*cell` and is well formed there |
| Quality.MarkerCell | src/quality.js:40 | the cell of a point `(x, y)` is `(floor(x/cell), floor(y/cell))`: the cell whose square holds the point |
| Quality.SeedUnique | src/quality.js:29-33 | the first walkable cell in row-major order is unique |
| Quality.FindSeed | src/quality.js:30-33 | the labelled loop returns the first walkable cell, rows outer and columns inner, and returns none iff no cell is walkable |
| Quality.VisitNeighbours | src/quality.js:22-25 | visiting a cell adds exactly its walkable unseen neighbours to the seen set, and the queue keeps its old entries in front and gains only cells newly added |
| Quality.FloodTurn | src/quality.js:20-26 | one turn of the loop keeps the search invariant and makes progress |
| Quality.Flood | src/quality.js:17-28 | the corrected flood, with the seed's own cell marked, returns exactly the cells connected to the seed through walkable cells |
| Quality.FloodAsWritten | src/quality.js:17-28 | the flood as written returns nothing for a seed without a walkable neighbour, and the seed's component otherwise |
| Quality.IsolatedComponent | src/quality.js:19 | the component of a walkable cell without walkable neighbours is that cell alone |
| Quality.ReachProperties | src/quality.js:34-38 | the corrected reach set of the src/quality.js:19 finding contains the seed and only walkable cells, is closed under steps to walkable neighbours, and is empty when no cell is walkable |
| Quality.ReachOfSeed | src/quality.js:35-38 | the corrected reach set of the src/quality.js:19 finding is the component of the seed |
| Quality.ReachAsWrittenOfSeed | src/quality.js:17-38 | the reach set as written is empty for an isolated seed and the seed's component otherwise |
| Quality.ReachAsWrittenAgrees | src/quality.js:19 | the reach set as written is contained in the corrected one and equals it iff the seed is not isolated; for an isolated seed the corrected set is the seed alone and the one as written is empty |
| Quality.SeedBugExample | src/quality.js:19 | in a 1x1 grid without walls the only cell is the seed, isolated and in its own component; a site at (5,5) with cell 10 lies on it, and the check as written reports it unreachable while the corrected one does not |
| Quality.AsWrittenExtraUnreachable | src/quality.js:19-42 | the sites the check as written reports unreachable beyond the corrected check's are exactly the sites on an isolated seed's cell |
| Quality.Reachability | src/quality.js:29-38 | seed search plus the flood as written computes the reach set as written |
| Quality.ReachabilityCorrected | src/quality.js:29-38 | seed search plus the corrected flood computes the corrected reach set |
| Quality.Unreachable | src/quality.js:39-42 | the unreachable sites are exactly the sites whose cell is not in the reach set, in order |
| Quality.UnreachableIff | src/quality.js:39-42 | with the reach set as written, a site is reported unreachable iff the seed is isolated or the site's cell is not in the seed's component |
| Quality.CoverageOdd | src/quality.js:48-53 | on a non-empty grid the coverage alert fires iff more than 85% or less than 5% of the cells are walls; on an empty grid the ratio is Infinity or NaN and it fires iff there are walls |
| Quality.CollectSiteGaps | src/quality.js:62-65 | the site loop of a walkable start returns its gaps in site order |
| Quality.CollectGaps | src/quality.js:56-68 | the gap loops return the gaps of every start in order; `continue` skips the sites of a blocked start |
| Quality.SiteGapsMembers | src/quality.js:62-65 | a walkable start has one gap per site that is not walkable or not reached, and no other |
| Quality.GapsMembers | src/quality.js:59-66 | a blocked start has exactly one gap and no per-site gaps; a walkable one has a gap for each blocked or unreached site |
| Quality.ReachImpliesWalkable | src/quality.js:64 | since reached cells are walkable in either reach set, a site's gap test is the reach test alone |
| Quality.Warnings | src/quality.js:5-9 | the calibration alert is pushed iff `px_per_meter <= 0`, then the sites alert iff there are no sites |
| Quality.GridAlerts | src/quality.js:39-68 | for a given reach set: the unreachable sites in order, the gaps when starts and sites exist, and the unreachable-sites, coverage and gaps alerts appended in push order, each when its condition holds |
| Quality.Check | src/quality.js:2-72 | the alerts, in push order: no calibration, no sites; then, with a grid, unreachable sites, odd coverage and path gaps, each when its condition holds; gaps only when starts and sites exist; all computed from the reach set as written, seed bug included |
| Quality.CheckCorrected | src/quality.js:2-72 | the same alerts, unreachable sites and gaps computed from the corrected reach set, the seed's whole component |
| Undo.CommandStack.constructor | src/undo.js:2 | the state is the argument and both stacks are empty |
| Undo.CommandStack.Exec | src/undo.js:3 | the new state and stacks are those of `exec` on the old ones |
| Undo.CommandStack.Undo | src/undo.js:4 | the new state and stacks are those of `undo` on the old ones |
| Undo.CommandStack.Redo | src/undo.js:5 | the new state and stacks are those of `redo` on the old ones |
| Undo.ExecStacks | src/undo.js:3 | a completed `do` pushes the command and clears the redo stack; a throwing one keeps both stacks; the state is what `do` left |
| Undo.EmptyIsNoOp | src/undo.js:4-5 | undo on an empty undo stack and redo on an empty redo stack change nothing |
| Undo.MovesKeepTotal | src/undo.js:4-5 | a completed undo or redo moves the top command of one stack onto the top of the other, keeping the total; a throwing one pops it and loses it from both |
| Undo.UndoThenRedo | src/undo.js:4-5 | undo then redo, neither throwing, restores both stacks exactly |
| Undo.ReversibleUndo | src/undo.js:4 | undoing a reversible command moves it from the top of the undo stack to the top of the redo stack |
| Undo.ReversibleUndoRedo | src/undo.js:4-5 | undo then redo of a reversible command restores the state and both stacks |
| Undo.UndoTimesStacks | src/undo.js:4 | n undos of reversible commands remove the top n commands from the undo stack and append them to the redo stack, topmost first, keeping the old redo entries below them |
| Undo.UndoRedoRoundTrip | src/undo.js:4-5 | n undos followed by n redos of reversible commands restore the history exactly |

## Left out

- The clustering (`kmeans`, `labelImageByCentroids`), the Sobel filter and Otsu's threshold are floating-point colour and edge code. The model takes their results as inputs: the cluster index map, the centroids' L values, the edge magnitudes and the threshold.
- `Grid.draw`, the HTML report with its `toFixed` percentages, and the alert texts are left out. Alerts and gaps are datatypes that carry the counts and markers the texts show; the door `name` and `type` strings are dropped.
- The `async` wrapper of `runPipeline`, `console.error` in the command stack, and every other I/O are left out.
- Defaults `cell = 10` and `occupancy = 0.4` of `fromMask` and `suggestDoors` are not modelled: both are explicit parameters.
- Defaults `selectedIndices = []` and `tolerance = 10` of `maskFromClusters`, and the options object `{k = 6, tolerance = 10, selectedClusters = []}` of `runPipeline`, are not modelled: the selection is an explicit parameter, an empty selection means the darkest cluster, `k` only feeds the clustering, and the tolerance has no effect in the source.
- NaN, `undefined` and missing fields are not modelled. Pixel values and L values are reals, and a missing calibration reads as `pxPerMeter <= 0`.
- Morph.Dilate: does not state that the result is a newly allocated array; nothing in the model writes to a result after it is returned.
- Morph.Erode: does not state that the result is a newly allocated array, for the same reason.
- Morph.Closing: does not state that the result is a newly allocated array.
- Morph.Opening: does not state that the result is a newly allocated array.
- Morph.EdgeRefine: does not state that the result is a newly allocated array.
- Morph.FillHoles: does not state that the result is a newly allocated array; the input is not modified since the method may modify nothing it was given.
- Occupancy.Grid.FromMask: requires `cell > 0`; with `cell = 0` the source divides by zero and loops without end.
- Pipeline.SuggestDoors: requires `cell > 0`; with `cell = 0` the loops of the source never advance.
- Quality.Check: requires `cell > 0` (with `cell = 0` every site cell is infinite and no key matches). It also requires the grid's walls to be duplicate-free, which every `Set` is; `blocked.size` is then the length of the sequence.
- Grid keys are pairs: a bundle key not of the form `${c}_${r}` has no counterpart.
- Undo.UndoRedoRoundTrip: proved only for stacks of reversible commands, whose `undo` never throws and whose `do` restores the state; other commands are covered one step at a time by Undo.MovesKeepTotal and Undo.UndoThenRedo.

## Findings

| source | as written | input that shows it | evidently intended | confidence | as-written member | corrected member |
|---|---|---|---|---|---|---|
| src/quality.js:19 | `seen.add(start)` adds the array `start`, while `seen` holds `${c}_${r}` keys, so the seed's key is only seen if a walkable neighbour adds it back; `Quality.Check` uses this flood, `Quality.CheckCorrected` the corrected one | a 1x1 grid without walls and a site at (5, 5) with cell 10: the only cell is the seed, the flood reaches nothing, and the site is reported unreachable (Quality.SeedBugExample) | the seed's key is in the reach set, so the reach set is the seed's whole component | not executed | Quality.FloodAsWritten | Quality.Flood |
