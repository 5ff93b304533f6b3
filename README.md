# N-dimensional lattice value noise, modelled and verified in Dafny

This project models `SimplexNoiseLayerN`, the N-dimensional noise layer of the Utils library.
The name says simplex noise, but it computes lattice value noise. A layer owns a grid of values,
a `density` and a random source.

`gen()` runs two passes over the grid:

1. **Seeding.** Every lattice point gets −1 or +1 from the next random boolean. A lattice point is
   a grid point whose coordinates are all multiples of `density`.
2. **Interpolation.** For every lattice cell, `buildEdges` lists the cell's 2^D corners. Bit d of a
   corner's index picks the near (0) or far (1) coordinate on axis d. Every point of the cell is
   then overwritten with `interpolate(point, corners, grid, interpolator, D - 1)`.

`interpolate` halves the corner list one axis at a time, from axis D − 1 down to axis 0. The two
remaining corners are read with wrap-around addressing: each coordinate is taken modulo the grid's
size on that axis. Both passes walk the grid with `each`, a recursive odometer that steps one axis
per recursion level.

The model is split into modules:

| module | file | what it holds |
|---|---|---|
| `Outcomes` | `outcomes.dfy` | the exceptions the core throws, and a `Result` type |
| `Bits` | `bits.dfy` | `power` and `getBit` on Java's 32-bit words |
| `Edges` | `edges.dfy` | `buildEdges`, as a method filling a fresh `array2`, plus the corner-list function it is proved against |
| `Iteration` | `iteration.dfy` | `each`, as a method mutating a shared `pos` array, plus the visit sequence it is proved against |
| `Grid` | `grid.dfy` | the grid, as a map from coordinate vectors to reals; a missing entry reads 0, like a fresh float array |
| `Interpolation` | `interpolation.dfy` | `interpolate`, as a method using arrays the way the source does, plus its value-level definition `Interp` and the independent per-axis blend `Blended` |
| `Layer` | `layer.dfy` | what the two passes compute, as folds over the visit sequences, and the theorems about the grid they leave |
| `Generator` | `generator.dfy` | class `NoiseLayer`: the layer's fields, its constructor, `get`, `gen`, and `gen`'s callbacks as methods |

## Modelling choices

- **Interpolator.** The interpolator (`FloatInterpolation`) is an arbitrary function.
  - The blend parameter reaches it as the exact fraction `pointDist / edgeDist` (`Interpolation.Fraction`), not as a rounded float.
  - Its endpoint identity, f(0, a, 0, b, 1) = a, is never assumed globally. `Interpolation.EndpointIdentity` names it, and the theorems that need it take it as a hypothesis.
- **Random source.** `java.util.Random` is the stream `coin: nat -> bool` of the booleans `nextBoolean()` returns, with a counter `drawn` of those already taken.
- **Callbacks.**
  - `each` returns, in order, the snapshots of `pos` at which it calls its callback. No callback writes `pos`, `begin` or `end`, so running the callback bodies over that sequence is the same as running them inside the traversal.
  - `gen`'s three anonymous callbacks are the methods `SeedPoint`, `InterpolateCell` and `InterpolatePoint`. The two traversals of `gen` are `SeedLattice` and `InterpolateLattice`.
  - `SeedPoints`, `InterpolateCells` and `InterpolatePoints` run a callback over a visit sequence, in order.
- **Integers.** Coordinates are unbounded integers. `power` and the corner indices are kept below 2^31 by limiting a cell to at most 30 axes (`Bits.MaxDims`). `getBit` is modelled on the two's-complement 32-bit word, with the shift distance taken modulo 32.

## Model

| member | source | states |
|---|---|---|
| Bits.Power | Utils/src/org/matheusdev/noises/SimplexNoiseLayerN.java:123-133 | `power` succeeds exactly for a nonnegative exponent; a negative one throws IllegalArgumentException; a positive base gives a positive power |
| Bits.PowerAdd | Utils/src/org/matheusdev/noises/SimplexNoiseLayerN.java:123-133 | the recursion is exponentiation: n^(a+b) = n^a · n^b |
| Bits.PowerExamples | Utils/src/org/matheusdev/noises/SimplexNoiseLayerN.java:123-133 | power(2,0) = 1, power(2,3) = 8, power(2,−1) throws IllegalArgumentException |
| Bits.Pow2Bounded | Utils/src/org/matheusdev/noises/SimplexNoiseLayerN.java:108 | for at most 30 axes the corner count 2^D stays within a Java `int` |
| Bits.GetBit | Utils/src/org/matheusdev/noises/SimplexNoiseLayerN.java:15-17 | the definition of `getBit`: bit `bit mod 32` of `integer` read as a 32-bit two's-complement word; its properties are the rows below |
| Bits.GetBitExamples | Utils/src/org/matheusdev/noises/SimplexNoiseLayerN.java:15-17 | `getBit` reads the bits of 5 as 1, 0, 1; a shift distance of 32 acts as 0; bit 31 of −1 (its sign bit) is set |
| Bits.BitOfLow | Utils/src/org/matheusdev/noises/SimplexNoiseLayerN.java:15-17 | an index below 2^b has bit b clear |
| Bits.BitOfHigh | Utils/src/org/matheusdev/noises/SimplexNoiseLayerN.java:15-17 | an index in [2^b, 2^(b+1)) has bit b set |
| Bits.BitOfShifted | Utils/src/org/matheusdev/noises/SimplexNoiseLayerN.java:15-17 | adding 2^b to an index below 2^b keeps every lower bit |
| Bits.BitOfAllOnes | Utils/src/org/matheusdev/noises/SimplexNoiseLayerN.java:15-17 | index 2^D − 1 has every bit below D set |
| Edges.Corners | Utils/src/org/matheusdev/noises/SimplexNoiseLayerN.java:106-121 | the corner list has 2^D rows of length D |
| Edges.BuildEdges | Utils/src/org/matheusdev/noises/SimplexNoiseLayerN.java:106-121 | the fresh 2^D-by-D array holds `start[d]` at [i, d] when bit d of i is clear and `end[d]` when it is set; its rows are `Corners(start, end)` |
| Edges.CornersCube | Utils/src/org/matheusdev/noises/SimplexNoiseLayerN.java:110-118 | the corner list follows the bit rule on every axis |
| Edges.CornersEnds | Utils/src/org/matheusdev/noises/SimplexNoiseLayerN.java:110-118 | corner 0 is `start` and corner 2^D − 1 is `end` |
| Edges.CubeHalves | Utils/src/org/matheusdev/noises/SimplexNoiseLayerN.java:110-118 | the lower half of a corner list of order k has axis k−1 at the near coordinate and the upper half at the far one; row i + 2^(k−1) agrees with row i below axis k−1; both halves are corner lists of order k−1 |
| Edges.CornersHalving | Utils/src/org/matheusdev/noises/SimplexNoiseLayerN.java:110-118 | for D ≥ 1: corners below 2^(D−1) have component D−1 = start[D−1]; the rest have end[D−1]; corner i + 2^(D−1) is corner i with only component D−1 replaced |
| Edges.CornersExample | Utils/src/org/matheusdev/noises/SimplexNoiseLayerN.java:106-121 | the cell from [0,0] to [2,2] has corners [0,0], [2,0], [0,2], [2,2] in that order |
| Iteration.AxisValues | Utils/src/org/matheusdev/noises/SimplexNoiseLayerN.java:140 | the definition of the values one axis's for-loop runs through, from `begin` upward by `step` while below `end` |
| Iteration.AxisValuesMember | Utils/src/org/matheusdev/noises/SimplexNoiseLayerN.java:140 | the loop `for (i = begin; i < end; i += step)` runs through exactly the values begin + j·step below end |
| Iteration.AxisValuesIncreasing | Utils/src/org/matheusdev/noises/SimplexNoiseLayerN.java:140 | those values are strictly increasing and never below begin |
| Iteration.Each | Utils/src/org/matheusdev/noises/SimplexNoiseLayerN.java:139-149 | `each` leaves pos[0..d) untouched and calls the callback on exactly the sequence `Lattice(pos[0..d), begin, end, step, d)` |
| Iteration.Lattice | Utils/src/org/matheusdev/noises/SimplexNoiseLayerN.java:139-149 | the definition of `each`'s visit order: axis `dimension` outermost, the last axis innermost, each running through its `AxisValues` |
| Iteration.LatticeMember | Utils/src/org/matheusdev/noises/SimplexNoiseLayerN.java:139-149 | a vector is visited iff it has D components, starts with pos[0..d), and each component k ≥ d is begin[k] + j·step < end[k] |
| Iteration.LatticeEmpty | Utils/src/org/matheusdev/noises/SimplexNoiseLayerN.java:139-149 | an empty range on any axis k ≥ d means no call at all |
| Iteration.LatticeSorted | Utils/src/org/matheusdev/noises/SimplexNoiseLayerN.java:139-149 | the visits come in strictly increasing lexicographic order, axis d outermost |
| Iteration.LatticeDistinct | Utils/src/org/matheusdev/noises/SimplexNoiseLayerN.java:139-149 | no vector is visited twice |
| Interpolation.Blend | Utils/src/org/matheusdev/noises/SimplexNoiseLayerN.java:74-76 | the definition of the blend parameter t = abs(p − near) / abs(far − near) as an exact fraction, the same at lines 95-97 |
| Interpolation.CellBlend | Utils/src/org/matheusdev/noises/SimplexNoiseLayerN.java:74-76 | inside a cell the blend parameter has divisor `density`, is 0 exactly at the near coordinate, and lies in [0, 1) |
| Interpolation.Wrap | Utils/src/org/matheusdev/noises/SimplexNoiseLayerN.java:78-85 | reducing nonnegative corner coordinates modulo positive sizes gives an in-bounds point, and leaves an in-bounds corner unchanged |
| Interpolation.WrapCongruent | Utils/src/org/matheusdev/noises/SimplexNoiseLayerN.java:78-85 | each wrapped coordinate is the Java remainder of the corner's and differs from it by a multiple of the size |
| Interpolation.Interp | Utils/src/org/matheusdev/noises/SimplexNoiseLayerN.java:69-104 | fewer than two corners throw IllegalArgumentException; the call succeeds exactly when halving reaches two corners while `dimension` is still a valid axis |
| Interpolation.InterpHalves | Utils/src/org/matheusdev/noises/SimplexNoiseLayerN.java:88-102 | with more than two corners, a failure of the lower half is passed on; otherwise the result blends the two halves' results along axis `dimension` |
| Interpolation.CopyRows | Utils/src/org/matheusdev/noises/SimplexNoiseLayerN.java:89-93 | `System.arraycopy` of `count` rows from row `from` into a fresh array gives exactly those rows |
| Interpolation.WrapRow | Utils/src/org/matheusdev/noises/SimplexNoiseLayerN.java:78-85 | the `point0`/`point1` loop yields the wrapped corner |
| Interpolation.Interpolate | Utils/src/org/matheusdev/noises/SimplexNoiseLayerN.java:69-104 | the array-based `interpolate` returns exactly `Interp` of the array's rows, throwing in the same cases |
| Interpolation.ReachesPow2 | Utils/src/org/matheusdev/noises/SimplexNoiseLayerN.java:69-104 | a list of 2^(k+1) corners reaches the base case from axis j iff k ≤ j < D |
| Interpolation.CubeBoxed | Utils/src/org/matheusdev/noises/SimplexNoiseLayerN.java:89-102 | a bit-indexed box of order k splits into a lower half at the near coordinate of axis k − 1 and an upper half at the far one, down to pairs of corners |
| Interpolation.InterpBox | Utils/src/org/matheusdev/noises/SimplexNoiseLayerN.java:69-104 | on a box given by that halving structure, `interpolate` from axis k − 1 equals `Blended` |
| Interpolation.InterpFullCube | Utils/src/org/matheusdev/noises/SimplexNoiseLayerN.java:69-104 | on any box of order D, `interpolate` from axis D − 1 equals the multilinear blend of its corners |
| Interpolation.InterpAxis | Utils/src/org/matheusdev/noises/SimplexNoiseLayerN.java:69-104 | a list of 2^D corners is interpolated without throwing exactly from axis D − 1 |
| Interpolation.InterpCube | Utils/src/org/matheusdev/noises/SimplexNoiseLayerN.java:69-104 | on the corners of a box of order k, `interpolate` from axis k − 1 equals the per-axis multilinear blend `Blended` |
| Interpolation.InterpCorners | Utils/src/org/matheusdev/noises/SimplexNoiseLayerN.java:54-60 | on a cell's `buildEdges` list, `interpolate` from axis D − 1 never throws and equals the multilinear blend of the corner values; from any other axis it throws |
| Interpolation.BlendedAtNear | Utils/src/org/matheusdev/noises/SimplexNoiseLayerN.java:74-76 | with an endpoint-preserving interpolator, blending at the near corner gives that corner's grid value |
| Interpolation.BlendedFrame | Utils/src/org/matheusdev/noises/SimplexNoiseLayerN.java:78-87 | the blend reads the grid only at the box's wrapped corners |
| Layer.Sign | Utils/src/org/matheusdev/noises/SimplexNoiseLayerN.java:39 | the definition of the seeded value: −1 for a drawn `true`, +1 for `false` |
| Layer.Shift | Utils/src/org/matheusdev/noises/SimplexNoiseLayerN.java:50-52 | the definition of the far corner `nextPos`: `density` added to every coordinate of `pos` |
| Layer.LatticePoints | Utils/src/org/matheusdev/noises/SimplexNoiseLayerN.java:36-41 | every position the seeding traversal visits is an in-bounds point with all coordinates multiples of `density` |
| Layer.LatticePointsExact | Utils/src/org/matheusdev/noises/SimplexNoiseLayerN.java:36-41 | the seeding traversal visits exactly those points |
| Layer.CellPoints | Utils/src/org/matheusdev/noises/SimplexNoiseLayerN.java:56-63 | the interior traversal visits vectors of D components |
| Layer.CellPointsExact | Utils/src/org/matheusdev/noises/SimplexNoiseLayerN.java:56-63 | the interior traversal visits exactly the points from `pos` (inclusive) to `pos + density` (exclusive) on every axis |
| Layer.PointValue | Utils/src/org/matheusdev/noises/SimplexNoiseLayerN.java:59-61 | the value written at a point is what `interpolate` returns on the cell's corner list, which does not throw |
| Layer.Seed | Utils/src/org/matheusdev/noises/SimplexNoiseLayerN.java:36-41 | the definition of the seeding pass as a fold: the visited points are written in turn, the i-th with the sign of the i-th boolean drawn |
| Layer.SeedValues | Utils/src/org/matheusdev/noises/SimplexNoiseLayerN.java:36-41 | writing distinct points in turn leaves the i-th with the sign of the i-th boolean and every other entry unchanged |
| Layer.SeedingPass | Utils/src/org/matheusdev/noises/SimplexNoiseLayerN.java:36-41 | after seeding, the i-th lattice point holds −1 if the i-th boolean is true, else +1; the entries are the old ones plus the lattice points; no other entry changes |
| Layer.CellOfFacts | Utils/src/org/matheusdev/noises/SimplexNoiseLayerN.java:46-65 | every grid point lies in the cell of a lattice point, whose far corner lies within the grid's closing boundary |
| Layer.CellOfMember | Utils/src/org/matheusdev/noises/SimplexNoiseLayerN.java:56-63 | every point the interior traversal visits is in bounds, and its cell is the one being handled |
| Layer.LatticeInCell | Utils/src/org/matheusdev/noises/SimplexNoiseLayerN.java:56-63 | the only lattice point in a cell is its near corner |
| Layer.WrappedCorner | Utils/src/org/matheusdev/noises/SimplexNoiseLayerN.java:78-87 | every corner of a cell, wrapped, is a lattice point, so every grid read is in bounds, including far corners past the edge |
| Layer.CoveredExact | Utils/src/org/matheusdev/noises/SimplexNoiseLayerN.java:46-65 | the interpolation pass visits exactly the grid's points |
| Layer.Fill | Utils/src/org/matheusdev/noises/SimplexNoiseLayerN.java:56-63 | the definition of one cell's interior traversal as a fold: each visited point gets what `interpolate` computes from the grid as it stands then |
| Layer.FillAll | Utils/src/org/matheusdev/noises/SimplexNoiseLayerN.java:46-65 | the definition of the interpolation pass as a fold of `Fill` over the cells, in visiting order |
| Layer.FillKeys | Utils/src/org/matheusdev/noises/SimplexNoiseLayerN.java:56-63 | a cell's traversal adds exactly the visited points to the entries |
| Layer.FillAllKeys | Utils/src/org/matheusdev/noises/SimplexNoiseLayerN.java:46-65 | the interpolation pass adds exactly the points of the handled cells |
| Layer.Generated | Utils/src/org/matheusdev/noises/SimplexNoiseLayerN.java:31-67 | the definition of the grid after both passes: `FillAll` over the lattice applied to `Seed` over the lattice |
| Layer.GenDomain | Utils/src/org/matheusdev/noises/SimplexNoiseLayerN.java:31-67 | for any interpolator, `gen` leaves entries at exactly the grid's points |
| Layer.FinalAtLattice | Utils/src/org/matheusdev/noises/SimplexNoiseLayerN.java:54-60 | with an endpoint-preserving interpolator, a lattice point's final value is its seeded value |
| Layer.FillValue | Utils/src/org/matheusdev/noises/SimplexNoiseLayerN.java:59-61 | while lattice values are intact, each write stores the point's final value: the blend of its cell's seeded corner values |
| Layer.FillStep | Utils/src/org/matheusdev/noises/SimplexNoiseLayerN.java:59-61 | one write keeps every lattice value intact and settles the written point |
| Layer.FillSettled | Utils/src/org/matheusdev/noises/SimplexNoiseLayerN.java:56-63 | a cell's traversal keeps lattice values intact and settles every point it visits |
| Layer.FillAllSettled | Utils/src/org/matheusdev/noises/SimplexNoiseLayerN.java:46-65 | the interpolation pass settles every point of every handled cell |
| Layer.GenValues | Utils/src/org/matheusdev/noises/SimplexNoiseLayerN.java:31-67 | with an endpoint-preserving interpolator: entries exactly at the grid's points; each point holds the multilinear blend of its cell's seeded corner values; the i-th lattice point keeps the sign of the i-th boolean |
| Generator.NoiseLayer.constructor | Utils/src/org/matheusdev/noises/SimplexNoiseLayerN.java:24-29 | stores density, random source, interpolator and dimensions; the grid starts without entries |
| Generator.NoiseLayer.Get | Utils/src/org/matheusdev/noises/SimplexNoiseLayerN.java:135-137 | `get()` returns the layer's own grid |
| Generator.NoiseLayer.NextBoolean | Utils/src/org/matheusdev/noises/SimplexNoiseLayerN.java:39 | returns the next boolean of the stream and advances it by one |
| Generator.NoiseLayer.SeedPoint | Utils/src/org/matheusdev/noises/SimplexNoiseLayerN.java:37-40 | writes −1 or +1 at `pos` from one boolean drawn |
| Generator.NoiseLayer.InterpolatePoint | Utils/src/org/matheusdev/noises/SimplexNoiseLayerN.java:57-62 | writes at `pos` what `interpolate` returns from the current grid |
| Generator.NoiseLayer.InterpolatePoints | Utils/src/org/matheusdev/noises/SimplexNoiseLayerN.java:56-63 | the inner traversal's callbacks, run in visiting order, leave the grid as the fold `Fill` of the cell's points |
| Generator.NoiseLayer.InterpolateCell | Utils/src/org/matheusdev/noises/SimplexNoiseLayerN.java:47-64 | fills `nextPos` with pos + density, builds the cell's corners, and interpolates the cell's points in visiting order, drawing nothing |
| Generator.NoiseLayer.SeedLattice | Utils/src/org/matheusdev/noises/SimplexNoiseLayerN.java:36-41 | the grid becomes the seeding fold over the lattice points; one boolean is drawn per lattice point |
| Generator.NoiseLayer.SeedPoints | Utils/src/org/matheusdev/noises/SimplexNoiseLayerN.java:36-41 | the seeding callbacks, run in visiting order, leave the grid as the fold `Seed` and draw one boolean per point |
| Generator.NoiseLayer.InterpolateCells | Utils/src/org/matheusdev/noises/SimplexNoiseLayerN.java:46-65 | the cell callbacks, run in visiting order on a shared `nextPos`, leave the grid as the fold `FillAll` |
| Generator.NoiseLayer.InterpolateLattice | Utils/src/org/matheusdev/noises/SimplexNoiseLayerN.java:43-65 | the grid becomes the interpolation fold over the cells, with one `nextPos` shared by all cells |
| Generator.NoiseLayer.Gen | Utils/src/org/matheusdev/noises/SimplexNoiseLayerN.java:31-67 | with no axes it throws ArrayIndexOutOfBoundsException and changes nothing; otherwise it returns the layer, leaves the grid produced by both passes (with all entries on the grid), and draws one boolean per lattice point |

## Left out

- Floating point. Grid values are reals, and the blend parameter is an exact fraction. Float rounding, and the NaN that `0f / 0f` would give, do not arise.
- `FloatInterpolation` implementations: the interpolator is an arbitrary function. Its endpoint identity is a hypothesis of the theorems that use it; `gen` does not check it.
- `MatrixNf` is not part of this model. Its internals, its index checks and what `set` does outside the grid are unknown.
  - The grid is a map.
  - A point never written reads 0.
  - Writes to any coordinate vector are recorded as given.
- `java.util.Random`: no generator algorithm is modelled. The booleans it would return are a given stream.
- `PosIterationCallback`: closures are not modelled. Each callback is a method, and `each` returns its visit sequence in place of calling one.
- The exception messages ("edges.length < 0", "exp < 1"): only the conditions under which the exceptions are thrown are modelled.
- Generator.NoiseLayer.Gen: requires every dimension size to be a positive multiple of `density`. A positive size that is not a multiple makes the interior traversal write beyond the grid, and that behaviour belongs to `MatrixNf`. A size of 0 or less makes both passes visit nothing (`Iteration.LatticeEmpty`), so `gen` returns the grid untouched; the model excludes it because wrapping a corner with `%` needs positive sizes.
- Generator.NoiseLayer.Gen: requires `density` > 0. With a density of 0, `each` loops forever. With a negative one, the loop visits negative coordinates until `i += step` wraps around past `end`; neither behaviour is modelled.
- Bits.Power: the power is exact, with unbounded integers. Java's `n * result` at line 131 wraps around past 2^31 (`power(2, 31)` is −2147483648), so "a positive base gives a positive power" holds only while n^exp stays below 2^31. `gen` only calls `power(2, D)` with D ≤ 30, which stays in range (`Bits.Pow2Bounded`).
- Generator.NoiseLayer.Gen: requires at most 30 axes. With 31 or more, `power(2, D)` overflows a Java `int`, and overflow is not modelled.
- Iteration.Each: requires `pos`, `begin` and `end` to have the same length, and `dimension` to lie below it. The source reads `begin[dimension]` and writes `pos[dimension]` without checking. It also requires `step` > 0: a step of 0 loops forever, and a negative one walks below `begin`.
- Edges.BuildEdges: requires `end` to be as long as `start`. A shorter `end` would throw ArrayIndexOutOfBoundsException, which is not modelled.
- Interpolation.Interpolate: requires every corner to have one nonnegative coordinate per grid axis and the grid sizes to be positive. This holds for every call `gen` makes. Other inputs could make Java's `%` differ from the model's, or read outside a row.
- `Vec2d` and `MatrixN3s` are not part of this model: one is floating-point vector arithmetic, the other a thin wrapper over a matrix class that is not shown.
