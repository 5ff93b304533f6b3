/** `interpolate`: recursive multilinear interpolation over a cell's corner list. */
module Interpolation {
  import opened Outcomes
  import opened Bits
  import opened Edges
  import opened Grid

  /** The blend parameter of one interpolation step, pointDist / edgeDist, kept as the exact
      quotient of the two integer distances (Java divides them as floats; with a zero divisor
      that gives NaN or infinity, which no real number stands for). */
  datatype Fraction = Fraction(pointDist: nat, edgeDist: nat)
  {
    /** The parameter's value, for a nonzero divisor. */
    function Value(): real
      requires edgeDist > 0
    {
      pointDist as real / edgeDist as real
    }
  }

  /** `FloatInterpolation.interpolate(t, a, aTag, b, bTag)`: an arbitrary blending function. */
  type Interpolator = (Fraction, real, int, real, int) -> real

  /** The interpolator returns its first value when the blend parameter is zero. The generator
      relies on this for corner values to survive the interpolation pass, but does not check it. */
  ghost predicate EndpointIdentity(f: Interpolator)
  {
    forall n: nat, a: real, b: real :: n > 0 ==> f(Fraction(0, n), a, 0, b, 1) == a
  }

  function Abs(x: int): nat
  {
    if x < 0 then -x else x
  }

  /** The blend parameter of coordinate p between the coordinates `near` and `far` of two corners
      on one axis: |p - near| / |far - near|. */
  function Blend(p: int, near: int, far: int): Fraction
  {
    Fraction(Abs(p - near), Abs(near - far))
  }

  /** Inside a cell of side `density` (from near inclusive to near + density exclusive, the range
      the interior loop of `gen` runs over) the blend parameter has divisor `density`, is zero
      exactly at the near corner's coordinate, and lies in [0, 1). */
  lemma CellBlend(p: int, near: int, density: int)
    requires density > 0 && near <= p < near + density
    ensures Blend(p, near, near + density) == Fraction(p - near, density)
    ensures Blend(p, near, near + density).pointDist == 0 <==> p == near
    ensures 0.0 <= Blend(p, near, near + density).Value() < 1.0
  {
  }

  /** A corner's coordinates reduced modulo the grid's dimension sizes, component by component
      (Java's `%`, which agrees with Dafny's on the nonnegative coordinates used here). */
  function Wrap(c: seq<int>, dims: seq<int>): (w: seq<int>)
    requires |c| == |dims| && Positive(dims) && Natural(c)
    ensures InBounds(w, dims)
    ensures InBounds(c, dims) ==> w == c
  {
    var w := seq(|c|, k requires 0 <= k < |c| => c[k] % dims[k]);
    assert forall k :: 0 <= k < |c| ==> w[k] == c[k] % dims[k];
    assert forall k :: 0 <= k < |c| ==> 0 <= w[k] < dims[k] && (c[k] < dims[k] ==> w[k] == c[k]) by {
      forall k | 0 <= k < |c| {
        ModFacts(c[k], dims[k]);
      }
    }
    w
  }

  /** Each wrapped coordinate is the remainder of the corner's, so it differs from it by a multiple
      of the dimension size. */
  lemma WrapCongruent(c: seq<int>, dims: seq<int>)
    requires |c| == |dims| && Positive(dims) && Natural(c)
    ensures forall k :: 0 <= k < |c| ==>
      Wrap(c, dims)[k] == c[k] % dims[k] && (c[k] - Wrap(c, dims)[k]) % dims[k] == 0
  {
    forall k | 0 <= k < |c| ensures (c[k] - c[k] % dims[k]) % dims[k] == 0 {
      ModFacts(c[k], dims[k]);
    }
  }

  /** A nonnegative remainder lies below the modulus, leaves a multiple of it, and is the number
      itself when that is already below the modulus. */
  lemma ModFacts(c: int, m: int)
    requires m > 0 && c >= 0
    ensures 0 <= c % m < m
    ensures (c - c % m) % m == 0
    ensures c < m ==> c % m == c
  {
    if c < m {
      DivUnique(c, m, 0, c);
    }
    var z := c / m;
    assert c - c % m == m * z + 0;
    DivUnique(c - c % m, m, z, 0);
  }

  /** The well-formedness `interpolate` needs of its inputs beyond what it checks itself: the
      point and every corner have one coordinate per grid axis, corner coordinates are
      nonnegative and the dimension sizes positive. */
  ghost predicate Shaped(point: seq<int>, edges: seq<seq<int>>, dims: seq<int>)
  {
    |point| == |dims| && Positive(dims) &&
    forall i :: 0 <= i < |edges| ==>
      |edges[i]| == |dims| && forall k :: 0 <= k < |dims| ==> edges[i][k] >= 0
  }

  /** `interpolate` on more than two corners: the lower half's failure is passed on; otherwise the
      result blends the two halves' results along axis `dimension`. */
  lemma InterpHalves(point: seq<int>, edges: seq<seq<int>>, cells: map<seq<int>, real>,
                     dims: seq<int>, f: Interpolator, dimension: int)
    requires Shaped(point, edges, dims) && |edges| > 2 && 0 <= dimension < |dims|
    ensures Shaped(point, edges[..|edges| / 2], dims)
    ensures Shaped(point, edges[|edges| / 2..2 * (|edges| / 2)], dims)
    ensures Interp(point, edges[..|edges| / 2], cells, dims, f, dimension - 1).Err? ==>
      Interp(point, edges, cells, dims, f, dimension) ==
      Err(Interp(point, edges[..|edges| / 2], cells, dims, f, dimension - 1).error)
    ensures Interp(point, edges[..|edges| / 2], cells, dims, f, dimension - 1).Ok? ==>
      Interp(point, edges[|edges| / 2..2 * (|edges| / 2)], cells, dims, f, dimension - 1).Ok? &&
      Interp(point, edges, cells, dims, f, dimension) ==
      Ok(f(Blend(point[dimension], edges[0][dimension], edges[|edges| / 2][dimension]),
           Interp(point, edges[..|edges| / 2], cells, dims, f, dimension - 1).value, 0,
           Interp(point, edges[|edges| / 2..2 * (|edges| / 2)], cells, dims, f, dimension - 1).value, 1))
  {
    ShapedSlice(point, edges, dims, 0, |edges| / 2);
    ShapedSlice(point, edges, dims, |edges| / 2, 2 * (|edges| / 2));
  }

  /** A run of a well-formed corner list is well formed. */
  lemma ShapedSlice(point: seq<int>, edges: seq<seq<int>>, dims: seq<int>, lo: nat, hi: nat)
    requires Shaped(point, edges, dims) && lo <= hi <= |edges|
    ensures Shaped(point, edges[lo..hi], dims)
  {
    forall i | 0 <= i < hi - lo ensures edges[lo..hi][i] == edges[lo + i] {
    }
  }

  /** Halving a list of len corners, one axis per level from `dimension` downward, arrives at
      two corners while the axis is still a valid index. */
  predicate Reaches(len: nat, dimension: int, axes: nat)
    decreases len
  {
    len >= 2 && 0 <= dimension < axes && (len == 2 || Reaches(len / 2, dimension - 1, axes))
  }

  /** `interpolate(point, edges, grid, interpol, dimension)` on values. With two corners it blends
      their wrapped grid values along axis `dimension`; with more it blends, along that axis, the
      results for the first and second half of the list one axis lower. */
  ghost function Interp(point: seq<int>, edges: seq<seq<int>>, cells: map<seq<int>, real>,
                        dims: seq<int>, f: Interpolator, dimension: int): (r: Result<real>)
    requires Shaped(point, edges, dims)
    ensures |edges| < 2 ==> r == Err(IllegalArgument)
    ensures r.Ok? <==> Reaches(|edges|, dimension, |dims|)
    decreases |edges|
  {
    if |edges| < 2 then Err(IllegalArgument)
    else if dimension < 0 || dimension >= |dims| then Err(IndexOutOfBounds)
    else if |edges| == 2 then
      var t := Blend(point[dimension], edges[0][dimension], edges[1][dimension]);
      Ok(f(t, Get(cells, dims, Wrap(edges[0], dims)), 0, Get(cells, dims, Wrap(edges[1], dims)), 1))
    else
      var h := |edges| / 2;
      var t := Blend(point[dimension], edges[0][dimension], edges[h][dimension]);
      match Interp(point, edges[..h], cells, dims, f, dimension - 1)
      case Err(e) => Err(e)
      case Ok(a) =>
        match Interp(point, edges[h..2 * h], cells, dims, f, dimension - 1)
        case Err(e) => Err(e)
        case Ok(b) => Ok(f(t, a, 0, b, 1))
  }

  /** `System.arraycopy(src, from, dst, 0, count)` into a fresh array of `count` rows. */
  method CopyRows(src: array2<int>, from: nat, count: nat) returns (dst: array2<int>)
    requires from + count <= src.Length0
    ensures fresh(dst) && dst.Length0 == count && dst.Length1 == src.Length1
    ensures Rows(dst) == Rows(src)[from..from + count]
  {
    dst := new int[count, src.Length1];
    for i := 0 to count
      invariant forall i', j :: 0 <= i' < i && 0 <= j < src.Length1 ==> dst[i', j] == src[from + i', j]
    {
      for j := 0 to src.Length1
        invariant forall i', j' :: 0 <= i' < i && 0 <= j' < src.Length1 ==> dst[i', j'] == src[from + i', j']
        invariant forall j' :: 0 <= j' < j ==> dst[i, j'] == src[from + i, j']
      {
        dst[i, j] := src[from + i, j];
      }
    }
    forall i | 0 <= i < count ensures Rows(dst)[i] == Rows(src)[from..from + count][i] {
    }
  }

  /** The loop of `interpolate` that reduces one corner's coordinates modulo the grid's dimension
      sizes into a fresh array. */
  method WrapRow(edges: array2<int>, row: nat, dims: seq<int>) returns (p: array<int>)
    requires row < edges.Length0 && edges.Length1 == |dims| && Positive(dims)
    requires forall k :: 0 <= k < |dims| ==> edges[row, k] >= 0
    ensures fresh(p)
    ensures p[..] == Wrap(Rows(edges)[row], dims)
  {
    p := new int[edges.Length1];
    for i := 0 to p.Length
      invariant forall k :: 0 <= k < i ==> p[k] == edges[row, k] % dims[k]
    {
      p[i] := edges[row, i] % dims[i];
    }
    forall k | 0 <= k < |dims| ensures p[k] == Wrap(Rows(edges)[row], dims)[k] {
    }
  }

  /** `interpolate`, computing the wrapped corner coordinates and the two halves of the corner
      list in fresh arrays as the source does. */
  method Interpolate(point: seq<int>, edges: array2<int>, grid: map<seq<int>, real>, dims: seq<int>,
                     interpol: Interpolator, dimension: int) returns (r: Result<real>)
    requires Shaped(point, Rows(edges), dims)
    ensures r == Interp(point, Rows(edges), grid, dims, interpol, dimension)
    decreases edges.Length0
  {
    ghost var rows := Rows(edges);
    if edges.Length0 < 2 {
      return Err(IllegalArgument);
    }
    assert |rows[0]| == |dims|;
    if dimension < 0 || dimension >= edges.Length1 {
      return Err(IndexOutOfBounds);
    }
    if edges.Length0 == 2 {
      var edgeDist := Abs(edges[0, dimension] - edges[1, dimension]);
      var pointDist := Abs(point[dimension] - edges[0, dimension]);
      var t := Fraction(pointDist, edgeDist);
      var point0 := WrapRow(edges, 0, dims);
      var point1 := WrapRow(edges, 1, dims);
      assert t == Blend(point[dimension], rows[0][dimension], rows[1][dimension]);
      r := Ok(interpol(t, Get(grid, dims, point0[..]), 0, Get(grid, dims, point1[..]), 1));
      assert Interp(point, rows, grid, dims, interpol, dimension) ==
        Ok(interpol(t, Get(grid, dims, Wrap(rows[0], dims)), 0, Get(grid, dims, Wrap(rows[1], dims)), 1));
    } else {
      var halfLen := edges.Length0 / 2;
      var half1 := CopyRows(edges, 0, halfLen);
      assert Rows(half1) == rows[..halfLen];
      var half2 := CopyRows(edges, halfLen, halfLen);
      assert Rows(half2) == rows[halfLen..2 * halfLen];
      var edgeDist := Abs(half1[0, dimension] - half2[0, dimension]);
      var pointDist := Abs(half1[0, dimension] - point[dimension]);
      var t := Fraction(pointDist, edgeDist);
      assert t == Blend(point[dimension], rows[0][dimension], rows[halfLen][dimension]);
      InterpHalves(point, rows, grid, dims, interpol, dimension);
      var a := Interpolate(point, half1, grid, dims, interpol, dimension - 1);
      assert a == Interp(point, rows[..halfLen], grid, dims, interpol, dimension - 1);
      if a.Err? {
        return Err(a.error);
      }
      var b := Interpolate(point, half2, grid, dims, interpol, dimension - 1);
      assert b == Interp(point, rows[halfLen..2 * halfLen], grid, dims, interpol, dimension - 1);
      // The halves have the same length, so the second call cannot fail once the first succeeded.
      assert b.Ok?;
      r := Ok(interpol(t, a.value, 0, b.value, 1));
    }
  }

  /** Lengths of corner lists that halving brings to two corners exactly at axis 0: a list of
      2^(k+1) corners succeeds from axis j exactly when k <= j < the number of axes. */
  lemma {:induction false} ReachesPow2(k: nat, j: int, axes: nat)
    ensures Reaches(Pow2(k + 1), j, axes) <==> k <= j < axes
  {
    Pow2Step(k + 1);
    if k > 0 {
      Pow2Step(k);
      assert Pow2(k + 1) / 2 == Pow2(k);
      ReachesPow2(k - 1, j - 1, axes);
    } else {
      assert Pow2(1) == 2;
    }
  }

  /** Multilinear blending of the grid values at the corners of the box spanned by lo and hi,
      axis by axis from axis k - 1 down to axis 0, with the coordinates of the axes from k on
      fixed to `tail`. This is an independent, per-axis statement of what `interpolate` computes
      on the corner list `buildEdges` makes. */
  ghost function Blended(point: seq<int>, lo: seq<int>, hi: seq<int>, cells: map<seq<int>, real>,
                         dims: seq<int>, f: Interpolator, k: nat, tail: seq<int>): real
    requires 1 <= k <= |dims| && |point| == |dims| && |lo| == |dims| && |hi| == |dims|
    requires |tail| == |dims| - k && Positive(dims) && Natural(lo) && Natural(hi) && Natural(tail)
    decreases k
  {
    var t := Blend(point[k - 1], lo[k - 1], hi[k - 1]);
    if k == 1 then
      f(t, Get(cells, dims, Wrap([lo[0]] + tail, dims)), 0, Get(cells, dims, Wrap([hi[0]] + tail, dims)), 1)
    else
      f(t, Blended(point, lo, hi, cells, dims, f, k - 1, [lo[k - 1]] + tail), 0,
           Blended(point, lo, hi, cells, dims, f, k - 1, [hi[k - 1]] + tail), 1)
  }

  /** The corners of a box of order k whose coordinates from axis k on are `tail`. */
  ghost predicate CubeWithTail(edges: seq<seq<int>>, k: nat, lo: seq<int>, hi: seq<int>, tail: seq<int>)
  {
    Cube(edges, k, lo, hi) && |tail| == |lo| - k &&
    forall i :: 0 <= i < |edges| ==> edges[i][k..] == tail
  }

  /** The halves of a box of order k >= 2 are boxes of order k - 1 whose tails are extended by the
      near and the far coordinate of axis k - 1. */
  lemma TailHalves(edges: seq<seq<int>>, k: nat, lo: seq<int>, hi: seq<int>, tail: seq<int>)
    requires CubeWithTail(edges, k, lo, hi, tail) && k >= 2
    ensures |edges| == 2 * Pow2(k - 1) && |edges| / 2 == Pow2(k - 1)
    ensures CubeWithTail(edges[..|edges| / 2], k - 1, lo, hi, [lo[k - 1]] + tail)
    ensures CubeWithTail(edges[|edges| / 2..2 * (|edges| / 2)], k - 1, lo, hi, [hi[k - 1]] + tail)
    ensures edges[0][k - 1] == lo[k - 1] && edges[|edges| / 2][k - 1] == hi[k - 1]
  {
    CubeHalves(edges, k, lo, hi);
    var h := Pow2(k - 1);
    assert edges[h..2 * h] == edges[h..];
    forall i | 0 <= i < h ensures edges[..h][i][k - 1..] == [lo[k - 1]] + tail {
      assert edges[i][k - 1..] == [edges[i][k - 1]] + edges[i][k..];
    }
    forall i | 0 <= i < h ensures edges[h..][i][k - 1..] == [hi[k - 1]] + tail {
      assert edges[h..][i] == edges[h + i];
      assert edges[h + i][k - 1..] == [edges[h + i][k - 1]] + edges[h + i][k..];
    }
  }

  /** A box's corners with nonnegative coordinates, one per grid axis, are a well-formed
      argument of `interpolate`. */
  lemma TailShaped(point: seq<int>, edges: seq<seq<int>>, k: nat, lo: seq<int>, hi: seq<int>,
                   tail: seq<int>, dims: seq<int>)
    requires CubeWithTail(edges, k, lo, hi, tail) && |lo| == |dims| && |point| == |dims|
    requires Positive(dims) && Natural(lo) && Natural(hi) && Natural(tail)
    ensures Shaped(point, edges, dims)
  {
    forall i, d | 0 <= i < |edges| && 0 <= d < |dims| ensures edges[i][d] >= 0 {
      if d >= k {
        assert edges[i][d] == edges[i][k..][d - k];
      } else {
        assert edges[i][d] == if !GetBit(i, d) then lo[d] else hi[d];
      }
    }
  }

  /** A box of order k by its halving structure: two corners that differ on axis 0 when k is 1,
      otherwise a lower half whose axis k - 1 is near and an upper half whose axis k - 1 is far. */
  ghost predicate Boxed(edges: seq<seq<int>>, k: nat, lo: seq<int>, hi: seq<int>, tail: seq<int>)
    decreases k
  {
    1 <= k <= |lo| && |hi| == |lo| && |tail| == |lo| - k &&
    if k == 1 then
      |edges| == 2 && edges[0] == [lo[0]] + tail && edges[1] == [hi[0]] + tail
    else
      |edges| > 2 && |edges[0]| == |lo| && |edges[|edges| / 2]| == |lo| &&
      edges[0][k - 1] == lo[k - 1] && edges[|edges| / 2][k - 1] == hi[k - 1] &&
      Boxed(edges[..|edges| / 2], k - 1, lo, hi, [lo[k - 1]] + tail) &&
      Boxed(edges[|edges| / 2..2 * (|edges| / 2)], k - 1, lo, hi, [hi[k - 1]] + tail)
  }

  /** The bit-indexed corners of a box of order k >= 1 have the halving structure. */
  lemma {:induction false} CubeBoxed(edges: seq<seq<int>>, k: nat, lo: seq<int>, hi: seq<int>, tail: seq<int>)
    requires CubeWithTail(edges, k, lo, hi, tail) && 1 <= k
    ensures Boxed(edges, k, lo, hi, tail)
    decreases k
  {
    if k == 1 {
      CubeBase(edges, lo, hi, tail);
    } else {
      TailHalves(edges, k, lo, hi, tail);
      CubeBoxed(edges[..|edges| / 2], k - 1, lo, hi, [lo[k - 1]] + tail);
      CubeBoxed(edges[|edges| / 2..2 * (|edges| / 2)], k - 1, lo, hi, [hi[k - 1]] + tail);
    }
  }

  /** A box of order 1 is its near corner followed by its far corner. */
  lemma CubeBase(edges: seq<seq<int>>, lo: seq<int>, hi: seq<int>, tail: seq<int>)
    requires CubeWithTail(edges, 1, lo, hi, tail)
    ensures |edges| == 2 && edges[0] == [lo[0]] + tail && edges[1] == [hi[0]] + tail
  {
    assert |edges| == 2 by {
      assert Pow2(1) == 2;
    }
    BitOfLow(0, 0);
    BitOfHigh(1, 0);
    assert edges[0][0] == lo[0] && edges[1][0] == hi[0];
    assert edges[0] == [edges[0][0]] + edges[0][1..];
    assert edges[1] == [edges[1][0]] + edges[1][1..];
  }

  /** `interpolate` from axis k - 1 on the corners of a box of order k computes the per-axis
      multilinear blend of the box's corner values. */
  lemma InterpCube(point: seq<int>, edges: seq<seq<int>>, cells: map<seq<int>, real>,
                   dims: seq<int>, f: Interpolator, k: nat, lo: seq<int>, hi: seq<int>, tail: seq<int>)
    requires CubeWithTail(edges, k, lo, hi, tail) && 1 <= k && |lo| == |dims| && |point| == |dims|
    requires Positive(dims) && Natural(lo) && Natural(hi) && Natural(tail)
    ensures Shaped(point, edges, dims)
    ensures Interp(point, edges, cells, dims, f, k - 1) == Ok(Blended(point, lo, hi, cells, dims, f, k, tail))
  {
    TailShaped(point, edges, k, lo, hi, tail, dims);
    CubeBoxed(edges, k, lo, hi, tail);
    InterpBox(point, edges, cells, dims, f, k, lo, hi, tail);
  }

  /** The same on the halving structure, by induction on k. */
  lemma {:induction false} InterpBox(point: seq<int>, edges: seq<seq<int>>, cells: map<seq<int>, real>,
                                     dims: seq<int>, f: Interpolator, k: nat, lo: seq<int>, hi: seq<int>,
                                     tail: seq<int>)
    requires Boxed(edges, k, lo, hi, tail) && Shaped(point, edges, dims) && |lo| == |dims|
    requires Natural(lo) && Natural(hi) && Natural(tail)
    ensures Interp(point, edges, cells, dims, f, k - 1) == Ok(Blended(point, lo, hi, cells, dims, f, k, tail))
    decreases k
  {
    if k > 1 {
      var nearTail, farTail := [lo[k - 1]] + tail, [hi[k - 1]] + tail;
      var lower, upper := edges[..|edges| / 2], edges[|edges| / 2..2 * (|edges| / 2)];
      assert Boxed(lower, k - 1, lo, hi, nearTail) && Boxed(upper, k - 1, lo, hi, farTail);
      NaturalCons(lo[k - 1], tail);
      NaturalCons(hi[k - 1], tail);
      InterpHalves(point, edges, cells, dims, f, k - 1);
      InterpBox(point, lower, cells, dims, f, k - 1, lo, hi, nearTail);
      InterpBox(point, upper, cells, dims, f, k - 1, lo, hi, farTail);
    }
  }

  /** Prepending a nonnegative coordinate keeps a vector nonnegative. */
  lemma NaturalCons(x: int, s: seq<int>)
    requires x >= 0 && Natural(s)
    ensures Natural([x] + s)
  {
  }

  /** On the corner list of a cell from `near` to `far`, `interpolate` from the top axis D - 1
      (as `gen` calls it) never throws and yields the multilinear blend of the corner values;
      from any other axis it throws. */
  lemma InterpCorners(point: seq<int>, near: seq<int>, far: seq<int>, cells: map<seq<int>, real>,
                      dims: seq<int>, f: Interpolator, dimension: int)
    requires 1 <= |dims| <= MaxDims && |point| == |dims| && |near| == |dims| && |far| == |dims|
    requires Positive(dims) && Natural(near) && Natural(far)
    ensures Shaped(point, Corners(near, far), dims)
    ensures Interp(point, Corners(near, far), cells, dims, f, |dims| - 1) ==
      Ok(Blended(point, near, far, cells, dims, f, |dims|, []))
    ensures Interp(point, Corners(near, far), cells, dims, f, dimension).Ok? <==> dimension == |dims| - 1
  {
    CornersCube(near, far);
    InterpFullCube(point, Corners(near, far), near, far, cells, dims, f);
    InterpAxis(point, Corners(near, far), cells, dims, f, dimension);
  }

  /** A box of full order has nothing after its last axis. */
  lemma FullCubeTail(e: seq<seq<int>>, lo: seq<int>, hi: seq<int>)
    requires Cube(e, |lo|, lo, hi)
    ensures CubeWithTail(e, |lo|, lo, hi, [])
  {
    forall i | 0 <= i < |e| ensures e[i][|lo|..] == [] {
      assert |e[i]| == |lo|;
    }
  }

  /** A list of 2^D corners is interpolated without throwing exactly from the top axis D - 1. */
  lemma InterpAxis(point: seq<int>, e: seq<seq<int>>, cells: map<seq<int>, real>, dims: seq<int>,
                   f: Interpolator, dimension: int)
    requires 1 <= |dims| <= MaxDims && Shaped(point, e, dims) && |e| == Pow2(|dims|)
    ensures Interp(point, e, cells, dims, f, dimension).Ok? <==> dimension == |dims| - 1
  {
    var k := |dims| - 1;
    assert |e| == Pow2(k + 1);
    ReachesPow2(k, dimension, |dims|);
    assert Reaches(|e|, dimension, |dims|) <==> dimension == k;
  }

  /** The same for any box of order D. */
  lemma InterpFullCube(point: seq<int>, e: seq<seq<int>>, near: seq<int>, far: seq<int>,
                       cells: map<seq<int>, real>, dims: seq<int>, f: Interpolator)
    requires 1 <= |dims| <= MaxDims && |point| == |dims| && |near| == |dims|
    requires Positive(dims) && Natural(near) && Natural(far) && Cube(e, |dims|, near, far)
    ensures Shaped(point, e, dims)
    ensures Interp(point, e, cells, dims, f, |dims| - 1) == Ok(Blended(point, near, far, cells, dims, f, |dims|, []))
  {
    FullCubeTail(e, near, far);
    InterpCube(point, e, cells, dims, f, |dims|, near, far, []);
  }

  /** When the interpolator returns its first value at parameter zero, blending at the near corner
      of a box with sides of nonzero length gives the grid value at that corner. */
  lemma {:induction false} BlendedAtNear(point: seq<int>, lo: seq<int>, hi: seq<int>, cells: map<seq<int>, real>,
                                         dims: seq<int>, f: Interpolator, k: nat, tail: seq<int>)
    requires 1 <= k <= |dims| && |point| == |dims| && |lo| == |dims| && |hi| == |dims|
    requires |tail| == |dims| - k && Positive(dims) && Natural(lo) && Natural(hi) && Natural(tail)
    requires EndpointIdentity(f)
    requires forall d :: 0 <= d < k ==> point[d] == lo[d] && lo[d] != hi[d]
    ensures Blended(point, lo, hi, cells, dims, f, k, tail) == Get(cells, dims, Wrap(lo[..k] + tail, dims))
    decreases k
  {
    var t := Blend(point[k - 1], lo[k - 1], hi[k - 1]);
    assert t == Fraction(0, t.edgeDist) && t.edgeDist > 0;
    if k == 1 {
      assert lo[..1] + tail == [lo[0]] + tail;
    } else {
      BlendedAtNear(point, lo, hi, cells, dims, f, k - 1, [lo[k - 1]] + tail);
      assert lo[..k - 1] + ([lo[k - 1]] + tail) == lo[..k] + tail;
    }
  }

  /** c is a corner of the box from lo to hi: each coordinate is the near or the far one. */
  ghost predicate CornerOf(c: seq<int>, lo: seq<int>, hi: seq<int>)
  {
    |c| == |lo| && |c| == |hi| && forall d :: 0 <= d < |c| ==> c[d] == lo[d] || c[d] == hi[d]
  }

  /** The blend reads the grid only at the box's wrapped corners: two grids that agree there give
      the same blend. */
  lemma {:induction false} BlendedFrame(point: seq<int>, lo: seq<int>, hi: seq<int>, c1: map<seq<int>, real>,
                                        c2: map<seq<int>, real>, dims: seq<int>, f: Interpolator, k: nat,
                                        tail: seq<int>)
    requires 1 <= k <= |dims| && |point| == |dims| && |lo| == |dims| && |hi| == |dims|
    requires |tail| == |dims| - k && Positive(dims) && Natural(lo) && Natural(hi) && Natural(tail)
    requires forall j :: 0 <= j < |tail| ==> tail[j] == lo[k + j] || tail[j] == hi[k + j]
    requires forall c :: CornerOf(c, lo, hi) && Natural(c) ==>
      Get(c1, dims, Wrap(c, dims)) == Get(c2, dims, Wrap(c, dims))
    ensures Blended(point, lo, hi, c1, dims, f, k, tail) == Blended(point, lo, hi, c2, dims, f, k, tail)
    decreases k
  {
    var nearTail := [lo[k - 1]] + tail;
    var farTail := [hi[k - 1]] + tail;
    TailExtend(lo, hi, k, tail, lo[k - 1]);
    TailExtend(lo, hi, k, tail, hi[k - 1]);
    if k > 1 {
      BlendedFrame(point, lo, hi, c1, c2, dims, f, k - 1, nearTail);
      BlendedFrame(point, lo, hi, c1, c2, dims, f, k - 1, farTail);
    }
  }

  /** Prefixing a tail of box coordinates from axis k on with a coordinate of axis k - 1 gives a
      tail from axis k - 1 on; at k == 1 it is a whole corner. */
  lemma TailExtend(lo: seq<int>, hi: seq<int>, k: nat, tail: seq<int>, v: int)
    requires 1 <= k <= |lo| && |lo| == |hi| && |tail| == |lo| - k
    requires Natural(lo) && Natural(hi) && Natural(tail)
    requires v == lo[k - 1] || v == hi[k - 1]
    requires forall j :: 0 <= j < |tail| ==> tail[j] == lo[k + j] || tail[j] == hi[k + j]
    ensures Natural([v] + tail)
    ensures forall j :: 0 <= j < |tail| + 1 ==> ([v] + tail)[j] == lo[k - 1 + j] || ([v] + tail)[j] == hi[k - 1 + j]
    ensures k == 1 ==> CornerOf([v] + tail, lo, hi)
  {
    var t := [v] + tail;
    forall j | 1 <= j < |t| ensures t[j] == tail[j - 1] {
    }
  }
}
