# JigsawGenerator core, in Dafny

JigsawGenerator draws jigsaw puzzles. Its engine, `JigsawGeneratorCore`, keeps a
matrix of pieces. Each piece has four sides, and each side holds a border type:

- INVALID, which means not decided yet;
- FEMININE, a blank cut into the piece;
- NEUTRAL, a straight edge;
- MASCULINE, a tab cut out of the piece.

The engine's operations:

- `set_shape` and the constructor fill the matrix with fresh, all-INVALID pieces.
- `make_borders` makes the outer ring NEUTRAL.
- `generate_random` walks the matrix column by column. Every side still INVALID gets a random tab or blank, and the facing side of the neighbour gets the inverse.
- `smoothed_path` turns the outline of a tab into a smooth curve. It first drops points that crowd the previously kept one. It then draws a line into the neighbourhood of each corner and a quadratic curve around it.

The model has five modules:

- `Borders` holds the border types, `inverse_border_type`, and the random pick, which becomes a coin.
- `Topology` holds the puzzle as a value: a grid of `Piece` records and the states the engine moves it through (`Undecided`, `Tiled`). It also gives, in closed form, the grid `generate_random` produces from a given sequence of coins (`Generated`) and the walk's state before each visited cell (`Progress`).
- `PieceMatrix` holds the loops of the constructor, `set_shape`, `make_borders` and `generate_random`, and the lookup of `get_cell`, on an `array2<Piece>`. Each loop is proved against the functions of `Topology`.
- `JigsawCore` and `LegacyJigsawCore` are the two copies of the class: the packaged one and the older one at the repository root, which calls its pieces `Cell`. Each has a `matrix` field and delegates to `PieceMatrix`, because the two copies run the same loops.
- `SmoothedPath` models `distance`, `get_line_start`, `get_line_end` and `smoothed_path`. Points are pairs of reals, and the `QPainterPath` is a small class recording the operations drawn on it.

Randomness is a parameter `coin: nat -> bool`. Coin number `k` decides the `k`-th `random.choice` call, and `true` picks MASCULINE, the first element of the list. `distance` is a parameter `dist` too. The lemmas about geometry assume `IsDistance(dist)`: `dist` is the exact non-negative square root of the squared distance.

Where the code and its descriptions differ, the model follows the code:

- The filter of `smoothed_path` always keeps the first two and the last two input points, not only the first and the last.
- `smoothed_path` emits two operations for every kept point, including the last, so `n` kept points give `2n` operations. The last point gets a zero-length line and a curve ending on itself.
- A comment in `smoothed_path` says the function stops at "3 or less" points. The code stops only below 3.
- `set_shape` has no error of its own for a zero dimension, because numpy allows an empty shape. `get_cell` has no error of its own either: numpy raises `IndexError` for an index at or beyond the shape, or below minus the shape, and wraps the other negative indices. The model does not invent errors the code lacks.

## Model

| member | source | states |
|---|---|---|
| Borders.Inverse | jigsaw_generator/jigsaw_generator_core.py:73-77 | FEMININE and MASCULINE swap, in both directions; NEUTRAL and INVALID come back unchanged; the result is a tab or blank exactly when the argument is (the older copy, jigsaw_generator_core.py lines 16-20, is the same function) |
| Borders.InverseInvolution | jigsaw_generator/jigsaw_generator_core.py:64-77 | inverting twice gives back the original border |
| Borders.InverseOfCutDiffers | jigsaw_generator/jigsaw_generator_core.py:73-76 | a tab or blank is never its own inverse |
| Borders.Choose | jigsaw_generator/jigsaw_generator_core.py:168-170 | `random.choice([MASCULINE, FEMININE])` always gives a tab or a blank, MASCULINE exactly when the coin is true |
| Topology.FreshGrid | jigsaw_generator/jigsaw_generator_core.py:103-107 | the grid of new pieces has the shape asked for, is undecided, and has all four sides INVALID everywhere |
| Topology.Bordered | jigsaw_generator/jigsaw_generator_core.py:143-149 | after `make_borders` the outer ring is NEUTRAL and every side not on the outer ring keeps its value |
| Topology.BorderedIdempotent | jigsaw_generator/jigsaw_generator_core.py:143-149 | `make_borders` twice is `make_borders` once |
| Topology.BorderedSinglePiece | jigsaw_generator/jigsaw_generator_core.py:143-149 | on a 1x1 matrix all four sides become NEUTRAL |
| Topology.BorderedKeepsStates | jigsaw_generator/jigsaw_generator_core.py:143-149 | `make_borders` keeps an undecided grid undecided and changes nothing on a finished puzzle |
| Topology.DrawsAfterColumn | jigsaw_generator/jigsaw_generator_core.py:165-166 | after column `i` the walk has used the coins of all columns up to `i`; after the last column, one coin per internal edge |
| Topology.DrawsInVisitOrder | jigsaw_generator/jigsaw_generator_core.py:165-166 | the coins of a cell come after those of every cell visited before it |
| Topology.DrawIndexInjective | jigsaw_generator/jigsaw_generator_core.py:174-190 | two different internal edges are decided by different coins |
| Topology.DrawIndexBound | jigsaw_generator/jigsaw_generator_core.py:174-190 | every internal edge is decided by one of the first `InternalEdges` coins |
| Topology.Drawn | jigsaw_generator/jigsaw_generator_core.py:175-177 | the border drawn for an internal edge is a tab or a blank |
| Topology.Generated | jigsaw_generator/jigsaw_generator_core.py:163-190 | the generated grid has the matrix's shape |
| Topology.GeneratedPiecesInterlock | jigsaw_generator/jigsaw_generator_core.py:174-190 | in the generated grid, `down` of `(i, j)` is a tab or blank and the inverse of `up` of `(i, j + 1)`; `right` of `(i, j)` is the same towards `left` of `(i + 1, j)` |
| Topology.GeneratedPieceSides | jigsaw_generator/jigsaw_generator_core.py:163-190 | a generated piece is NEUTRAL exactly on the outer ring and a tab or blank on every other side |
| Topology.GeneratedIsCompleteAndFramed | jigsaw_generator/jigsaw_generator_core.py:163-190 | the generated grid has no INVALID side and a NEUTRAL outer ring |
| Topology.GeneratedIsInterlocked | jigsaw_generator/jigsaw_generator_core.py:168-190 | every internal edge of the generated grid is a tab against the matching blank |
| Topology.GeneratedIsTiled | jigsaw_generator/jigsaw_generator_core.py:163-190 | whatever the coins, the generated grid is a finished puzzle |
| Topology.DrawnAgrees | jigsaw_generator/jigsaw_generator_core.py:174-190 | two coin sequences that agree on the first `InternalEdges` coins decide every internal edge alike |
| Topology.GeneratedDependsOnDrawsOnly | jigsaw_generator/jigsaw_generator_core.py:165-190 | two coin sequences that agree on the first `InternalEdges` coins give the same puzzle |
| Topology.ProgressAtStart | jigsaw_generator/jigsaw_generator_core.py:163-166 | an undecided grid with a NEUTRAL frame is the walk's state before the first cell |
| Topology.ProgressStable | jigsaw_generator/jigsaw_generator_core.py:165-190 | visiting `(i, j)` decides nothing outside that cell and the two neighbours it writes to |
| Topology.VisitHere | jigsaw_generator/jigsaw_generator_core.py:167-190 | when the walk reaches `(i, j)`, `up` and `left` are already decided, so those branches are dead; `down` is INVALID exactly when `j + 1 < h`, so the `j + 1` write is in range; `right` likewise with `i + 1 < w`; the visit decides both with the next coins, as in the generated grid |
| Topology.VisitBelow | jigsaw_generator/jigsaw_generator_core.py:174-178 | the `up` write into the cell below gives it its generated value |
| Topology.VisitRight | jigsaw_generator/jigsaw_generator_core.py:186-190 | the `left` write into the cell to the right gives it its generated value |
| Topology.ProgressNextColumn | jigsaw_generator/jigsaw_generator_core.py:165-166 | the state after column `i` is the state before column `i + 1` |
| Topology.ProgressDone | jigsaw_generator/jigsaw_generator_core.py:165-190 | after the last column every piece holds its generated value |
| Topology.VisitDecidedChangesNothing | jigsaw_generator/jigsaw_generator_core.py:167-190 | a visit that finds no INVALID side changes nothing and uses no coin |
| Topology.VisitProgress | jigsaw_generator/jigsaw_generator_core.py:167-190 | one loop body moves every piece from the walk's state before `(i, j)` to the state after it |
| PieceMatrix.FillFresh | jigsaw_generator/jigsaw_generator_core.py:113-115 | the nested loops put a fresh piece in every position; the matrix is then valid unless it has rows but no columns, or columns but no rows |
| PieceMatrix.MakeBorders | jigsaw_generator/jigsaw_generator_core.py:143-149 | the new matrix is `Bordered` of the old one; validity is kept |
| PieceMatrix.GenerateRandom | jigsaw_generator/jigsaw_generator_core.py:163-190 | the result is always a finished puzzle; from an undecided matrix it is `Generated` of the coins, using one coin per internal edge; a finished puzzle is left unchanged and uses no coin |
| PieceMatrix.VisitColumn | jigsaw_generator/jigsaw_generator_core.py:166-190 | one pass of the outer loop moves the walk from column `i` to column `i + 1` and counts its coins |
| PieceMatrix.VisitCell | jigsaw_generator/jigsaw_generator_core.py:167-190 | the four `if`s at `(i, j)` change the matrix as `VisitEffect` says, and nothing else; the `up` and `left` branches are unreachable |
| PieceMatrix.GetCell | jigsaw_generator/jigsaw_generator_core.py:203 | returns the piece at `(x, y)`; on a finished puzzle it has no INVALID side |
| JigsawCore.JigsawGeneratorCore.constructor | jigsaw_generator/jigsaw_generator_core.py:110-115 | a newly allocated matrix of the given shape with a fresh piece in every position, ready for `make_borders` and `generate_random` |
| JigsawCore.JigsawGeneratorCore.SetShape | jigsaw_generator/jigsaw_generator_core.py:128-132 | a newly allocated matrix of the given shape with a fresh piece in every position |
| JigsawCore.JigsawGeneratorCore.MakeBorders | jigsaw_generator/jigsaw_generator_core.py:143-149 | the matrix becomes `Bordered` of what it was |
| JigsawCore.JigsawGeneratorCore.GenerateRandom | jigsaw_generator/jigsaw_generator_core.py:163-190 | the matrix becomes a finished puzzle, `Generated` of the coins when it was undecided |
| JigsawCore.JigsawGeneratorCore.GetCell | jigsaw_generator/jigsaw_generator_core.py:203 | the piece at the given coordinates, with nothing changed |
| LegacyJigsawCore.JigsawGeneratorCore.constructor | jigsaw_generator_core.py:37-42 | a newly allocated matrix of the given shape with a fresh `Cell` in every position, ready for `make_borders` and `generate_random` |
| LegacyJigsawCore.JigsawGeneratorCore.SetShape | jigsaw_generator_core.py:44-49 | a newly allocated matrix of the given shape with a fresh `Cell` in every position |
| LegacyJigsawCore.JigsawGeneratorCore.MakeBorders | jigsaw_generator_core.py:51-58 | the matrix becomes `Bordered` of what it was |
| LegacyJigsawCore.JigsawGeneratorCore.GenerateRandom | jigsaw_generator_core.py:60-83 | the matrix becomes a finished puzzle, `Generated` of the coins when it was undecided |
| LegacyJigsawCore.JigsawGeneratorCore.GetCell | jigsaw_generator_core.py:85-86 | the cell at the given coordinates, with nothing changed |
| SmoothedPath.SquaredDistance | jigsaw_generator/smoothed_path.py:40-41 | the radicand of `distance` is never negative |
| SmoothedPath.DistanceSymmetric | jigsaw_generator/smoothed_path.py:31-42 | `distance(p, q) == distance(q, p)` |
| SmoothedPath.DistanceToSelf | jigsaw_generator/smoothed_path.py:31-42 | the distance from a point to itself is 0 |
| SmoothedPath.Ratio | jigsaw_generator/smoothed_path.py:57-60 | the ratio is at most 0.5; it is exactly 0.5 for distances from 0 to 20; otherwise it is `10 / d` |
| SmoothedPath.AlongGeometry | jigsaw_generator/smoothed_path.py:62-63 | the interpolated point lies on the line through the two points, a fraction `t` of the way |
| SmoothedPath.LineStartGeometry | jigsaw_generator/smoothed_path.py:54-64 | `get_line_start` lies on the segment, on the side facing `pt2`, 10 units from `pt1` or halfway, never past the middle; it is `pt1` when `pt1 == pt2` |
| SmoothedPath.LineStart | jigsaw_generator/smoothed_path.py:45-64 | `get_line_start` lies on the line through `pt1` and `pt2` whatever `distance` returns; it is the midpoint when the distance is at most 20, and `pt1` when the points coincide |
| SmoothedPath.LineEnd | jigsaw_generator/smoothed_path.py:67-86 | `get_line_end` lies on the line through the two points whatever `distance` returns; it is the midpoint when the distance is at most 20, and `pt2` when the points coincide |
| SmoothedPath.LineEndMirrorsStart | jigsaw_generator/smoothed_path.py:76-86 | `get_line_end(pt1, pt2)` is `get_line_start(pt2, pt1)` |
| SmoothedPath.LineEndGeometry | jigsaw_generator/smoothed_path.py:76-86 | `get_line_end` lies on the segment, 10 units from `pt2` or halfway, never past the middle; it is `pt2` when `pt1 == pt2` |
| SmoothedPath.KeptIndices | jigsaw_generator/smoothed_path.py:125-131 | after `n` input points at most `n` are kept, all below `n`; the first two are always kept |
| SmoothedPath.Kept | jigsaw_generator/smoothed_path.py:122-131 | the kept points are the input points at the kept positions |
| SmoothedPath.KeptIndicesPrefix | jigsaw_generator/smoothed_path.py:125-131 | looking at more points only appends to the kept list |
| SmoothedPath.KeptInOrder | jigsaw_generator/smoothed_path.py:125-131 | the kept positions strictly increase, so the kept list is an order-preserving subsequence |
| SmoothedPath.KeptLastTwo | jigsaw_generator/smoothed_path.py:128 | the last two input points are always kept |
| SmoothedPath.KeptFar | jigsaw_generator/smoothed_path.py:128-131 | a point kept after the first two and before the last two is at least `factor` from the point kept before it |
| SmoothedPath.KeptDropsOnlyNear | jigsaw_generator/smoothed_path.py:128-129 | a dropped point lies strictly between the first two and the last two, and is closer than `factor` to the last point kept before it |
| SmoothedPath.KeptAtLeastThree | jigsaw_generator/smoothed_path.py:128-135 | at least three points are kept exactly when the input has at least three; a shorter input is kept whole |
| SmoothedPath.KeepPoints | jigsaw_generator/smoothed_path.py:122-131 | the filtering loop returns `Kept` of the input |
| SmoothedPath.SmoothOps | jigsaw_generator/smoothed_path.py:137-149 | the first `n` kept points give `2n` operations |
| SmoothedPath.SmoothOpsLayout | jigsaw_generator/smoothed_path.py:137-149 | kept point `i` gives, at positions `2i` and `2i + 1`, a `lineTo` (for `i == 0`) or a `quadTo` with the point as control, ending at `get_line_start` towards the next point, and then a `lineTo` to `get_line_end` |
| SmoothedPath.SmoothOpsQuadCount | jigsaw_generator/smoothed_path.py:143-146 | `n` kept points give exactly `n - 1` curves |
| SmoothedPath.SmoothOpsEndOnLastPoint | jigsaw_generator/smoothed_path.py:139-149 | the last operation is a `lineTo` to the last kept point |
| SmoothedPath.SmoothOpsTangent | jigsaw_generator/smoothed_path.py:139-149 | each curve has its corner as control point, starts where the preceding line on the incoming segment stopped, and ends on the outgoing segment, so the corner is rounded without a kink |
| SmoothedPath.PainterPath.LineTo | jigsaw_generator/smoothed_path.py:144 | `lineTo` appends one line operation to the path |
| SmoothedPath.PainterPath.QuadTo | jigsaw_generator/smoothed_path.py:146 | `quadTo` appends one curve operation to the path |
| SmoothedPath.AppendSmoothed | jigsaw_generator/smoothed_path.py:137-149 | the emission loop appends exactly `SmoothOps` of the kept points to the path |
| SmoothedPath.Smooth | jigsaw_generator/smoothed_path.py:89-151 | with fewer than three input points the path is unchanged; otherwise it gains `SmoothOps` of the kept points, two operations per kept point |

## Left out

- The Qt user interface, the painting of tabs and blanks, file and colour dialogs, and image export are not part of this model.
- `random.choice` is a coin sequence given as a parameter. The distribution of the coins is not modelled.
- `distance` is a parameter. The geometry lemmas assume it is the exact real square root; `numpy.sqrt`'s floating-point rounding, and floating-point arithmetic in general, are not modelled.
- Pieces are values written back into the matrix, not shared mutable objects. `SetShape` models the `fill` of `set_shape` by allocating the matrix with a fresh piece everywhere, before the loops write a fresh piece into each position. That the filled positions share one object, until the loops replace it, cannot be expressed with values.
- JigsawCore.JigsawGeneratorCore.GetCell: returns a copy of the piece. The source returns the object itself, which a caller could then change inside the matrix.
- JigsawCore.JigsawGeneratorCore.GetCell: requires in-range coordinates. Beyond the shape, or below minus the shape, the source raises numpy's `IndexError`, which the model does not return; the source's other negative indices, counting from the end, are not modelled.
- The constructor called without a shape, which leaves `matrix` unset, is not modelled. Both constructors take a shape.
- JigsawCore.JigsawGeneratorCore.MakeBorders: requires that the shape has rows and columns, or neither. With rows but no columns, or columns but no rows, the source fails with an index error on its first write.
- JigsawCore.JigsawGeneratorCore.GenerateRandom: requires the matrix to be `Valid`, meaning undecided or finished. These are the only states the class's own methods reach. The class does not carry this as an invariant of its own.
- PieceMatrix.VisitCell: requires `up` and `left` at `(i, j)` to be decided, as the walk guarantees. The source's `j - 1` and `i - 1` writes, which would wrap around in numpy, are therefore not modelled.
- LegacyJigsawCore.JigsawGeneratorCore.GetCell: returns a copy of the cell, for in-range coordinates only, as in the packaged copy: numpy's `IndexError` beyond the shape and its wrapping of negative indices are not modelled.
- LegacyJigsawCore.JigsawGeneratorCore.MakeBorders: requires rows and columns, or neither, as in the packaged copy.
- LegacyJigsawCore.JigsawGeneratorCore.GenerateRandom: requires the matrix to be `Valid`, as in the packaged copy.
- SmoothedPath.Smooth: records the operations drawn on the path. The `QPainterPath` object, its initial point and the curves' rendering are not modelled.
- SmoothedPath.DistanceSymmetric: does not state that a distance of zero implies equal points.
