/** `SimplexNoiseLayerN`: a noise layer that owns its grid and fills it in place. */
module Generator {
  import opened Outcomes
  import opened Bits
  import opened Edges
  import opened Grid
  import opened Iteration
  import opened Interpolation
  import opened Layer

  class NoiseLayer {
    /** `values`: the grid's entries. */
    var values: map<seq<int>, real>
    /** `values.getDimensions()`. */
    const dims: seq<int>
    const density: int
    /** `rand`: the booleans successive `nextBoolean()` calls return. */
    const coin: nat -> bool
    /** How many booleans have been drawn from `rand`. */
    var drawn: nat
    const interpolator: Interpolator

    /** Every entry lies on the grid. */
    ghost predicate Valid()
      reads this
    {
      forall p :: p in values ==> InBounds(p, dims)
    }

    /** `SimplexNoiseLayerN(density, rand, interpolator, dimensions...)`: a fresh grid without
        entries (every value 0) and an untouched random source. */
    constructor (density: int, coin: nat -> bool, interpolator: Interpolator, dimensions: seq<int>)
      ensures this.density == density && this.coin == coin && this.interpolator == interpolator
      ensures dims == dimensions && values == map[] && drawn == 0
      ensures Valid()
    {
      this.density := density;
      this.coin := coin;
      this.interpolator := interpolator;
      dims := dimensions;
      values := map[];
      drawn := 0;
    }

    /** `get()`: the grid. */
    function Get(): (m: map<seq<int>, real>)
      reads this
      ensures m == values
    {
      values
    }

    /** `rand.nextBoolean()`: the next boolean of the stream. */
    method NextBoolean() returns (b: bool)
      modifies this
      ensures b == coin(old(drawn)) && drawn == old(drawn) + 1 && values == old(values)
    {
      b := coin(drawn);
      drawn := drawn + 1;
    }

    /** The callback of the seeding pass: `values.set(rand.nextBoolean() ? -1f : 1f, pos)`. */
    method SeedPoint(pos: seq<int>)
      modifies this
      ensures values == old(values)[pos := Sign(coin(old(drawn)))] && drawn == old(drawn) + 1
    {
      var b := NextBoolean();
      values := values[pos := Sign(b)];
    }

    /** The callback of the interior traversal: `values.set(interpolate(pos, edges, values,
        interpolator, D - 1), pos)`, for the corner list of the cell from `near` to `far`. */
    method InterpolatePoint(pos: seq<int>, edges: array2<int>, near: seq<int>, far: seq<int>)
      requires 1 <= |dims| <= MaxDims && Positive(dims) && |pos| == |dims|
      requires |near| == |dims| && |far| == |dims| && Natural(near) && Natural(far)
      requires Rows(edges) == Corners(near, far)
      modifies this
      ensures values == old(values)[pos := PointValue(old(values), pos, near, far, dims, interpolator)]
      ensures drawn == old(drawn)
    {
      var grid := values;
      ghost var v := PointValue(grid, pos, near, far, dims, interpolator);
      assert Shaped(pos, Rows(edges), dims);
      assert Interp(pos, Rows(edges), grid, dims, interpolator, |dims| - 1) == Ok(v);
      var r := Interpolate(pos, edges, grid, dims, interpolator, |dims| - 1);
      values := grid[pos := r.value];
    }

    /** The callback of the interpolation pass, for the cell whose near corner is `pos`: fills the
        pooled `nextPos` with the far corner, builds the cell's corner list and interpolates every
        point of the cell in the order `each` visits them. */
    method InterpolateCell(pos: seq<int>, nextPos: array<int>)
      requires 1 <= |dims| <= MaxDims && Positive(dims) && density > 0
      requires |pos| == |dims| && Natural(pos) && nextPos.Length == |dims|
      modifies this, nextPos
      ensures values == Fill(old(values), CellPoints(pos, density), pos, Shift(pos, density), dims, interpolator)
      ensures nextPos[..] == Shift(pos, density)
      ensures drawn == old(drawn)
    {
      for ii := 0 to nextPos.Length
        modifies nextPos
        invariant forall k :: 0 <= k < ii ==> nextPos[k] == pos[k] + density
      {
        nextPos[ii] := pos[ii] + density;
      }
      var far := nextPos[..];
      assert far == Shift(pos, density);
      var edges := BuildEdges(pos, far);
      var inner := new int[|dims|];
      var points := Each(inner, |dims|, 0, pos, far, 1);
      assert points == CellPoints(pos, density);
      InterpolatePoints(points, edges, pos, far);
    }

    /** The callbacks of the inner traversal: `InterpolatePoint` on each point visited, in order. */
    method InterpolatePoints(points: seq<seq<int>>, edges: array2<int>, near: seq<int>, far: seq<int>)
      requires 1 <= |dims| <= MaxDims && Positive(dims)
      requires |near| == |dims| && |far| == |dims| && Natural(near) && Natural(far)
      requires Rows(edges) == Corners(near, far)
      requires forall i :: 0 <= i < |points| ==> |points[i]| == |dims|
      modifies this
      ensures values == Fill(old(values), points, near, far, dims, interpolator)
      ensures drawn == old(drawn)
    {
      var j := 0;
      while j < |points|
        invariant 0 <= j <= |points|
        invariant values == Fill(old(values), points[..j], near, far, dims, interpolator)
        invariant drawn == old(drawn)
        modifies this
      {
        assert points[..j + 1][..j] == points[..j];
        InterpolatePoint(points[j], edges, near, far);
        j := j + 1;
      }
      assert points[..j] == points;
    }

    /** The first traversal of `gen`: `each` over the lattice points with the seeding callback. */
    method SeedLattice()
      requires 1 <= |dims| && density > 0
      modifies this
      ensures values == Seed(old(values), LatticePoints(dims, density), coin, old(drawn))
      ensures drawn == old(drawn) + |LatticePoints(dims, density)|
    {
      var pos := new int[|dims|];
      var begin := new int[|dims|](_ => 0);
      assert begin[..] == Zeros(|dims|);
      var lattice := Each(pos, |dims|, 0, begin[..], dims, density);
      SeedPoints(lattice);
    }

    /** The callbacks of the seeding traversal: `SeedPoint` on each point visited, in order. */
    method SeedPoints(pts: seq<seq<int>>)
      modifies this
      ensures values == Seed(old(values), pts, coin, old(drawn))
      ensures drawn == old(drawn) + |pts|
    {
      var i := 0;
      while i < |pts|
        invariant 0 <= i <= |pts|
        invariant values == Seed(old(values), pts[..i], coin, old(drawn))
        invariant drawn == old(drawn) + i
        modifies this
      {
        assert pts[..i + 1][..i] == pts[..i];
        SeedPoint(pts[i]);
        i := i + 1;
      }
      assert pts[..i] == pts;
    }

    /** The second traversal of `gen`: `each` over the lattice points with the cell callback, which
        shares one `nextPos` array across all cells. */
    method InterpolateLattice()
      requires Layout(dims, density)
      modifies this
      ensures values == FillAll(old(values), LatticePoints(dims, density), density, dims, interpolator)
      ensures drawn == old(drawn)
    {
      var nextPos := new int[|dims|];
      var pos := new int[|dims|];
      var begin := new int[|dims|](_ => 0);
      assert begin[..] == Zeros(|dims|);
      var nears := Each(pos, |dims|, 0, begin[..], dims, density);
      assert nears == LatticePoints(dims, density);
      InterpolateCells(nears, nextPos);
    }

    /** The callbacks of the outer traversal: `InterpolateCell` on each near corner visited, in
        order, all sharing `nextPos`. */
    method InterpolateCells(nears: seq<seq<int>>, nextPos: array<int>)
      requires 1 <= |dims| <= MaxDims && Positive(dims) && density > 0 && nextPos.Length == |dims|
      requires forall i :: 0 <= i < |nears| ==> |nears[i]| == |dims| && Natural(nears[i])
      modifies this, nextPos
      ensures values == FillAll(old(values), nears, density, dims, interpolator)
      ensures drawn == old(drawn)
    {
      var c := 0;
      while c < |nears|
        invariant 0 <= c <= |nears|
        invariant values == FillAll(old(values), nears[..c], density, dims, interpolator)
        invariant drawn == old(drawn)
        modifies this, nextPos
      {
        assert nears[..c + 1][..c] == nears[..c];
        InterpolateCell(nears[c], nextPos);
        c := c + 1;
      }
      assert nears[..c] == nears;
    }

    /** `gen()`: seeds every lattice point with a random sign, then interpolates every cell. On a
        grid without axes the first traversal reads `begin[0]` and throws before anything is
        changed. */
    method Gen() returns (r: Result<NoiseLayer>)
      requires Valid() && |dims| <= MaxDims && density > 0
      requires forall k :: 0 <= k < |dims| ==> dims[k] > 0 && dims[k] % density == 0
      modifies this
      ensures |dims| == 0 ==> r == Err(IndexOutOfBounds) && values == old(values) && drawn == old(drawn)
      ensures |dims| >= 1 ==> (r == Ok(this) && Layout(dims, density) &&
        values == Generated(old(values), dims, density, interpolator, coin, old(drawn)) &&
        drawn == old(drawn) + |LatticePoints(dims, density)|)
      ensures Valid()
    {
      if |dims| == 0 {
        return Err(IndexOutOfBounds);
      }
      assert Layout(dims, density);
      SeedLattice();
      InterpolateLattice();
      GenDomain(old(values), dims, density, interpolator, coin, old(drawn));
      return Ok(this);
    }
  }
}
