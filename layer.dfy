/** What the two passes of `gen` compute, stated on values: the seeding pass over the lattice
    points, the interpolation pass over the cells, and the theorems about the grid they leave. */
module Layer {
  import opened Outcomes
  import opened Bits
  import opened Edges
  import opened Grid
  import opened Iteration
  import opened Interpolation

  /** The value a lattice point is seeded with: `rand.nextBoolean() ? -1f : 1f`. */
  function Sign(b: bool): real
  {
    if b then -1.0 else 1.0
  }

  function Zeros(n: nat): (z: seq<int>)
    ensures |z| == n && Natural(z)
  {
    seq(n, _ => 0)
  }

  /** The far corner of the cell at `near`: the `nextPos` loop of `gen`. */
  function Shift(near: seq<int>, density: int): (far: seq<int>)
    ensures |far| == |near|
  {
    seq(|near|, k requires 0 <= k < |near| => near[k] + density)
  }

  /** The grids `gen` is modelled on: one to 30 axes, a positive density, every dimension size a
      positive multiple of it. */
  ghost predicate Layout(dims: seq<int>, density: int)
  {
    1 <= |dims| <= MaxDims && density > 0 &&
    forall k :: 0 <= k < |dims| ==> dims[k] > 0 && dims[k] % density == 0
  }

  /** The near corners of the cells, in the order both passes of `gen` visit them:
      `each(…, new int[D], D, 0, new int[D], dims, density)`. */
  function LatticePoints(dims: seq<int>, density: int): (nears: seq<seq<int>>)
    requires 1 <= |dims| && density > 0
    ensures forall i :: 0 <= i < |nears| ==>
      OnLattice(nears[i], dims, density) && |nears[i]| == |dims| && Natural(nears[i])
  {
    var nears := Lattice([], Zeros(|dims|), dims, density, 0);
    forall i | 0 <= i < |nears| ensures OnLattice(nears[i], dims, density) && Natural(nears[i]) {
      LatticeMember([], Zeros(|dims|), dims, density, 0, nears[i]);
    }
    nears
  }

  /** The points of the cell at `near`, in the order the inner traversal
      `each(…, new int[D], D, 0, pos, nextPos, 1)` visits them. */
  function CellPoints(near: seq<int>, density: int): (qs: seq<seq<int>>)
    requires 1 <= |near| && density > 0
    ensures forall i :: 0 <= i < |qs| ==> |qs[i]| == |near|
  {
    var qs := Lattice([], near, Shift(near, density), 1, 0);
    forall i | 0 <= i < |qs| ensures |qs[i]| == |near| {
      LatticeMember([], near, Shift(near, density), 1, 0, qs[i]);
    }
    qs
  }

  /** The elements of a sequence of vectors, as a set. */
  function Members(qs: seq<seq<int>>): (m: set<seq<int>>)
    ensures forall q :: q in m <==> q in qs
  {
    set i | 0 <= i < |qs| :: qs[i]
  }

  /** p is a grid point whose every coordinate is a multiple of density. */
  ghost predicate OnLattice(p: seq<int>, dims: seq<int>, density: int)
    requires density > 0
  {
    InBounds(p, dims) && forall k :: 0 <= k < |p| ==> p[k] % density == 0
  }

  /** The near corner of the cell that holds q. */
  function CellOf(q: seq<int>, density: int): seq<int>
    requires density > 0
  {
    seq(|q|, k requires 0 <= k < |q| => q[k] - q[k] % density)
  }

  /** The seeding pass: the i-th lattice point visited gets the sign of the i-th boolean drawn,
      `coin(from + i)`; the points are written one after the other. */
  function Seed(cells: map<seq<int>, real>, pts: seq<seq<int>>, coin: nat -> bool, from: nat): map<seq<int>, real>
    decreases |pts|
  {
    if pts == [] then cells
    else Seed(cells, pts[..|pts| - 1], coin, from)[pts[|pts| - 1] := Sign(coin(from + |pts| - 1))]
  }

  /** What `interpolate(q, buildEdges(near, far), grid, f, D - 1)` returns: it cannot throw on a
      cell's corner list. */
  ghost function PointValue(cells: map<seq<int>, real>, q: seq<int>, near: seq<int>, far: seq<int>,
                            dims: seq<int>, f: Interpolator): (v: real)
    requires 1 <= |dims| <= MaxDims && |q| == |dims| && |near| == |dims| && |far| == |dims|
    requires Positive(dims) && Natural(near) && Natural(far)
    ensures Shaped(q, Corners(near, far), dims) &&
      Interp(q, Corners(near, far), cells, dims, f, |dims| - 1) == Ok(v)
  {
    InterpCorners(q, near, far, cells, dims, f, |dims| - 1);
    Interp(q, Corners(near, far), cells, dims, f, |dims| - 1).value
  }

  /** The interior traversal of one cell: each visited point q in turn gets what `interpolate`
      computes from the grid as it stands at that moment. */
  ghost function Fill(cells: map<seq<int>, real>, qs: seq<seq<int>>, near: seq<int>, far: seq<int>,
                      dims: seq<int>, f: Interpolator): map<seq<int>, real>
    requires 1 <= |dims| <= MaxDims && |near| == |dims| && |far| == |dims|
    requires Positive(dims) && Natural(near) && Natural(far)
    requires forall i :: 0 <= i < |qs| ==> |qs[i]| == |dims|
    decreases |qs|
  {
    if qs == [] then cells
    else
      var cur := Fill(cells, qs[..|qs| - 1], near, far, dims, f);
      var q := qs[|qs| - 1];
      cur[q := PointValue(cur, q, near, far, dims, f)]
  }

  /** The interpolation pass over the cells at the near corners `nears`, one after the other. */
  ghost function FillAll(cells: map<seq<int>, real>, nears: seq<seq<int>>, density: int, dims: seq<int>,
                         f: Interpolator): map<seq<int>, real>
    requires 1 <= |dims| <= MaxDims && Positive(dims) && density > 0
    requires forall i :: 0 <= i < |nears| ==> |nears[i]| == |dims| && Natural(nears[i])
    decreases |nears|
  {
    if nears == [] then cells
    else
      var near := nears[|nears| - 1];
      Fill(FillAll(cells, nears[..|nears| - 1], density, dims, f), CellPoints(near, density),
           near, Shift(near, density), dims, f)
  }

  /** The value the interpolation pass gives the grid point q: the multilinear blend, over the
      cell that holds q, of the seeded values at the cell's wrapped corners. */
  ghost function Final(q: seq<int>, seeded: map<seq<int>, real>, dims: seq<int>, density: int,
                       f: Interpolator): real
    requires Layout(dims, density) && InBounds(q, dims)
  {
    CellOfFacts(q, dims, density);
    Blended(q, CellOf(q, density), Shift(CellOf(q, density), density), seeded, dims, f, |dims|, [])
  }

  // ---------------------------------------------------------------------------------------------
  // Arithmetic on multiples of the density.

  /** A multiple of m below another multiple of m lies at least m below it. */
  lemma MultipleBelow(a: int, b: int, m: int)
    requires m > 0 && a % m == 0 && b % m == 0 && a < b
    ensures a + m <= b
  {
    var x, y := a / m, b / m;
    assert a == m * x && b == m * y;
    MulSub(m, y, x);
    MulBelow(m, x - y + 1);
    MulAdd(m, x, 1);
  }

  /** The multiple of m at or below x, for nonnegative x. */
  lemma FloorFacts(x: int, m: int)
    requires m > 0 && x >= 0
    ensures 0 <= x - x % m <= x < x - x % m + m
    ensures (x - x % m) % m == 0
  {
    ModFacts(x, m);
  }

  /** The only multiple of m within m at or below x is x - x % m. */
  lemma FloorUnique(x: int, near: int, m: int)
    requires m > 0 && near % m == 0 && near <= x < near + m
    ensures near == x - x % m
  {
    var z := near / m;
    assert near == m * z;
    assert x == m * z + (x - near);
    DivUnique(x, m, z, x - near);
  }

  /** Adding m does not change the remainder modulo m. */
  lemma ModAddStep(a: int, m: int)
    requires m > 0
    ensures (a + m) % m == a % m
  {
    ModSubStep(a + m, m);
  }

  // ---------------------------------------------------------------------------------------------
  // Geometry of the lattice and the cells.

  /** The lattice points are exactly the grid points whose coordinates are multiples of density. */
  lemma LatticePointsExact(dims: seq<int>, density: int, p: seq<int>)
    requires 1 <= |dims| && density > 0
    ensures p in LatticePoints(dims, density) <==> OnLattice(p, dims, density)
  {
    LatticeMember([], Zeros(|dims|), dims, density, 0, p);
    assert p[..0] == [];
  }

  /** The cell at `near` holds exactly the points from near (inclusive) to near + density
      (exclusive) on every axis. */
  lemma CellPointsExact(near: seq<int>, density: int, q: seq<int>)
    requires 1 <= |near| && density > 0
    ensures q in CellPoints(near, density) <==>
      |q| == |near| && forall k :: 0 <= k < |near| ==> near[k] <= q[k] < near[k] + density
  {
    var far := Shift(near, density);
    LatticeMember([], near, far, 1, 0, q);
    assert q[..0] == [];
    if |q| == |near| {
      forall k | 0 <= k < |near| ensures far[k] == near[k] + density && (q[k] - near[k]) % 1 == 0 {
        DivUnique(q[k] - near[k], 1, q[k] - near[k], 0);
      }
    }
  }

  /** The cell of a grid point: its near corner is a lattice point, its far corner lies within the
      grid's closing boundary, and the point lies in it. */
  lemma CellOfFacts(q: seq<int>, dims: seq<int>, density: int)
    requires Layout(dims, density) && InBounds(q, dims)
    ensures OnLattice(CellOf(q, density), dims, density) && Natural(CellOf(q, density))
    ensures Natural(Shift(CellOf(q, density), density))
    ensures forall k :: 0 <= k < |q| ==> Shift(CellOf(q, density), density)[k] <= dims[k]
    ensures q in CellPoints(CellOf(q, density), density)
  {
    var c := CellOf(q, density);
    forall k | 0 <= k < |q|
      ensures 0 <= c[k] <= q[k] < c[k] + density && c[k] % density == 0 && c[k] + density <= dims[k]
    {
      FloorFacts(q[k], density);
      MultipleBelow(c[k], dims[k], density);
    }
    CellPointsExact(c, density, q);
  }

  /** A point of the cell at lattice point `near` has that cell as its own. */
  lemma CellOfMember(q: seq<int>, near: seq<int>, dims: seq<int>, density: int)
    requires Layout(dims, density) && OnLattice(near, dims, density)
    requires q in CellPoints(near, density)
    ensures InBounds(q, dims) && CellOf(q, density) == near
  {
    CellPointsExact(near, density, q);
    forall k | 0 <= k < |near| ensures q[k] < dims[k] && CellOf(q, density)[k] == near[k] {
      MultipleBelow(near[k], dims[k], density);
      FloorUnique(q[k], near[k], density);
    }
  }

  /** The only lattice point in the cell at `near` is near itself. */
  lemma LatticeInCell(q: seq<int>, near: seq<int>, dims: seq<int>, density: int)
    requires Layout(dims, density) && OnLattice(near, dims, density)
    requires q in CellPoints(near, density) && OnLattice(q, dims, density)
    ensures q == near
  {
    CellOfMember(q, near, dims, density);
    forall k | 0 <= k < |q| ensures q[k] == CellOf(q, density)[k] {
    }
  }

  /** A coordinate of a cell's corners, reduced modulo the dimension size, is a multiple of density. */
  lemma WrappedCoordinate(x: int, near: int, n: int, m: int)
    requires m > 0 && n > 0 && n % m == 0 && near % m == 0 && 0 <= near < n
    requires x == near || x == near + m
    ensures x >= 0 && (x % n) % m == 0
  {
    MultipleBelow(near, n, m);
    assert x % m == 0 by {
      if x != near {
        ModAddStep(near, m);
      }
    }
    if x < n {
      ModFacts(x, n);
      assert x % n == x;
    } else {
      assert x == n;
      SelfMod(n);
      assert x % n == 0;
    }
  }

  /** A positive number is a multiple of itself. */
  lemma SelfMod(n: int)
    requires n > 0
    ensures n % n == 0
  {
    DivUnique(n, n, 1, 0);
  }

  /** Every corner of a cell, wrapped onto the grid, is a lattice point. */
  lemma WrappedCorner(c: seq<int>, near: seq<int>, dims: seq<int>, density: int)
    requires Layout(dims, density) && OnLattice(near, dims, density)
    requires CornerOf(c, near, Shift(near, density))
    ensures Natural(c) && OnLattice(Wrap(c, dims), dims, density)
  {
    WrapCongruent(c, dims);
    forall k | 0 <= k < |c| ensures c[k] >= 0 && (c[k] % dims[k]) % density == 0 {
      WrappedCoordinate(c[k], near[k], dims[k], density);
    }
  }

  // ---------------------------------------------------------------------------------------------
  // The seeding pass.

  /** After seeding distinct points, the i-th holds the sign of the i-th boolean drawn; every other
      entry of the grid is as it was. */
  lemma {:induction false} SeedValues(cells: map<seq<int>, real>, pts: seq<seq<int>>, coin: nat -> bool, from: nat)
    requires forall i, j :: 0 <= i < j < |pts| ==> pts[i] != pts[j]
    ensures forall i :: 0 <= i < |pts| ==>
      pts[i] in Seed(cells, pts, coin, from) && Seed(cells, pts, coin, from)[pts[i]] == Sign(coin(from + i))
    ensures forall p :: p !in pts ==>
      (p in Seed(cells, pts, coin, from) <==> p in cells) &&
      (p in cells ==> Seed(cells, pts, coin, from)[p] == cells[p])
    decreases |pts|
  {
    if pts != [] {
      var n := |pts| - 1;
      var init := pts[..n];
      SeedValues(cells, init, coin, from);
      var prev := Seed(cells, init, coin, from);
      var m := prev[pts[n] := Sign(coin(from + n))];
      assert Seed(cells, pts, coin, from) == m;
      forall i | 0 <= i < |pts| ensures pts[i] in m && m[pts[i]] == Sign(coin(from + i)) {
        if i < n {
          assert init[i] == pts[i] && pts[i] != pts[n];
        }
      }
      forall p | p in init ensures p in pts {
      }
    }
  }

  /** The seeding pass of `gen` leaves exactly the lattice points and the previous entries in the
      grid, the i-th lattice point in visiting order holding the sign of the i-th boolean drawn. */
  lemma SeedingPass(cells: map<seq<int>, real>, dims: seq<int>, density: int, coin: nat -> bool, from: nat)
    requires 1 <= |dims| && density > 0
    ensures var pts := LatticePoints(dims, density);
      forall i :: 0 <= i < |pts| ==>
        pts[i] in Seed(cells, pts, coin, from) && Seed(cells, pts, coin, from)[pts[i]] == Sign(coin(from + i))
    ensures var pts := LatticePoints(dims, density);
      forall p :: p in Seed(cells, pts, coin, from) <==> p in cells || OnLattice(p, dims, density)
    ensures var pts := LatticePoints(dims, density);
      forall p :: p in cells && !OnLattice(p, dims, density) ==> Seed(cells, pts, coin, from)[p] == cells[p]
  {
    var pts := LatticePoints(dims, density);
    LatticeDistinct([], Zeros(|dims|), dims, density, 0);
    SeedValues(cells, pts, coin, from);
    forall p ensures p in pts <==> OnLattice(p, dims, density) {
      LatticePointsExact(dims, density, p);
    }
  }

  // ---------------------------------------------------------------------------------------------
  // The interpolation pass.

  /** The grid after both passes of `gen` on a grid holding `cells`, drawing booleans from
      position `from` of the random stream on. */
  ghost function Generated(cells: map<seq<int>, real>, dims: seq<int>, density: int, f: Interpolator,
                           coin: nat -> bool, from: nat): map<seq<int>, real>
    requires Layout(dims, density)
  {
    var nears := LatticePoints(dims, density);
    FillAll(Seed(cells, nears, coin, from), nears, density, dims, f)
  }

  /** The points visited while the cells at `nears` are interpolated. */
  function Covered(nears: seq<seq<int>>, density: int): set<seq<int>>
    requires density > 0 && forall i :: 0 <= i < |nears| ==> |nears[i]| >= 1
    decreases |nears|
  {
    if nears == [] then {}
    else Covered(nears[..|nears| - 1], density) + Members(CellPoints(nears[|nears| - 1], density))
  }

  /** A point is visited exactly when it lies in one of the cells. */
  lemma {:induction false} CoveredMember(nears: seq<seq<int>>, density: int, q: seq<int>)
    requires density > 0 && forall i :: 0 <= i < |nears| ==> |nears[i]| >= 1
    ensures q in Covered(nears, density) <==> exists i :: 0 <= i < |nears| && q in CellPoints(nears[i], density)
    decreases |nears|
  {
    if nears != [] {
      var n := |nears| - 1;
      CoveredMember(nears[..n], density, q);
      if exists i :: 0 <= i < |nears[..n]| && q in CellPoints(nears[..n][i], density) {
        var i :| 0 <= i < |nears[..n]| && q in CellPoints(nears[..n][i], density);
        assert nears[i] == nears[..n][i];
      }
      if exists i :: 0 <= i < |nears| && q in CellPoints(nears[i], density) {
        var i :| 0 <= i < |nears| && q in CellPoints(nears[i], density);
        if i < n {
          assert nears[..n][i] == nears[i];
        }
      }
    }
  }

  /** Every grid point lies in the cell of some lattice point, and every visited point lies on
      the grid. */
  lemma CoveredExact(dims: seq<int>, density: int, q: seq<int>)
    requires Layout(dims, density)
    ensures q in Covered(LatticePoints(dims, density), density) <==> InBounds(q, dims)
  {
    var nears := LatticePoints(dims, density);
    CoveredMember(nears, density, q);
    if InBounds(q, dims) {
      CellOfFacts(q, dims, density);
      LatticePointsExact(dims, density, CellOf(q, density));
      var i :| 0 <= i < |nears| && nears[i] == CellOf(q, density);
      assert q in CellPoints(nears[i], density);
    }
    if q in Covered(nears, density) {
      var i :| 0 <= i < |nears| && q in CellPoints(nears[i], density);
      CellOfMember(q, nears[i], dims, density);
    }
  }

  /** The cell traversal adds exactly the visited points to the grid's entries. */
  lemma {:induction false} FillKeys(cells: map<seq<int>, real>, qs: seq<seq<int>>, near: seq<int>, far: seq<int>,
                                    dims: seq<int>, f: Interpolator)
    requires 1 <= |dims| <= MaxDims && |near| == |dims| && |far| == |dims|
    requires Positive(dims) && Natural(near) && Natural(far)
    requires forall i :: 0 <= i < |qs| ==> |qs[i]| == |dims|
    ensures forall q :: q in Fill(cells, qs, near, far, dims, f) <==> q in cells || q in qs
    decreases |qs|
  {
    if qs != [] {
      var n := |qs| - 1;
      FillKeys(cells, qs[..n], near, far, dims, f);
      assert qs == qs[..n] + [qs[n]];
    }
  }

  /** The interpolation pass adds exactly the visited points to the grid's entries. */
  lemma {:induction false} FillAllKeys(cells: map<seq<int>, real>, nears: seq<seq<int>>, density: int,
                                       dims: seq<int>, f: Interpolator)
    requires 1 <= |dims| <= MaxDims && Positive(dims) && density > 0
    requires forall i :: 0 <= i < |nears| ==> |nears[i]| == |dims| && Natural(nears[i])
    ensures forall q :: q in FillAll(cells, nears, density, dims, f) <==> q in cells || q in Covered(nears, density)
    decreases |nears|
  {
    if nears != [] {
      var n := |nears| - 1;
      FillAllKeys(cells, nears[..n], density, dims, f);
      FillKeys(FillAll(cells, nears[..n], density, dims, f), CellPoints(nears[n], density),
               nears[n], Shift(nears[n], density), dims, f);
    }
  }

  /** Whatever the interpolator, `gen` leaves an entry at exactly the grid's points, provided the
      grid held no entry outside them before. */
  lemma GenDomain(cells: map<seq<int>, real>, dims: seq<int>, density: int, f: Interpolator,
                  coin: nat -> bool, from: nat)
    requires Layout(dims, density)
    requires forall p :: p in cells ==> InBounds(p, dims)
    ensures forall q :: q in Generated(cells, dims, density, f, coin, from) <==> InBounds(q, dims)
  {
    var nears := LatticePoints(dims, density);
    SeedingPass(cells, dims, density, coin, from);
    FillAllKeys(Seed(cells, nears, coin, from), nears, density, dims, f);
    forall q ensures q in Covered(nears, density) <==> InBounds(q, dims) {
      CoveredExact(dims, density, q);
    }
  }

  /** With an interpolator that returns its first value at parameter zero, the final value of a
      lattice point is its seeded value. */
  lemma FinalAtLattice(p: seq<int>, seeded: map<seq<int>, real>, dims: seq<int>, density: int, f: Interpolator)
    requires Layout(dims, density) && OnLattice(p, dims, density) && EndpointIdentity(f)
    ensures Final(p, seeded, dims, density, f) == Get(seeded, dims, p)
  {
    CellOfFacts(p, dims, density);
    var far := Shift(p, density);
    CellPointsExact(p, density, p);
    CellOfMember(p, p, dims, density);
    BlendedAtNear(p, p, far, seeded, dims, f, |dims|, []);
    assert p[..|dims|] + [] == p;
  }

  /** The interpolation pass so far: every lattice point still holds its seeded value and every
      point visited holds its final value. */
  ghost predicate Settled(cur: map<seq<int>, real>, seeded: map<seq<int>, real>, done: set<seq<int>>,
                          dims: seq<int>, density: int, f: Interpolator)
    requires Layout(dims, density)
  {
    (forall p :: OnLattice(p, dims, density) ==> Get(cur, dims, p) == Get(seeded, dims, p)) &&
    forall q :: q in done ==> InBounds(q, dims) && q in cur && cur[q] == Final(q, seeded, dims, density, f)
  }

  /** The value the interior traversal writes at a point of the cell at `near`, while the pass is
      settled, is the point's final value. */
  lemma FillValue(cur: map<seq<int>, real>, seeded: map<seq<int>, real>, done: set<seq<int>>,
                  q: seq<int>, near: seq<int>, dims: seq<int>, density: int, f: Interpolator)
    requires Layout(dims, density) && OnLattice(near, dims, density)
    requires Natural(near) && Natural(Shift(near, density)) && |q| == |dims|
    requires q in CellPoints(near, density) && Settled(cur, seeded, done, dims, density, f)
    ensures InBounds(q, dims)
    ensures PointValue(cur, q, near, Shift(near, density), dims, f) == Final(q, seeded, dims, density, f)
  {
    var far := Shift(near, density);
    InterpCorners(q, near, far, cur, dims, f, |dims| - 1);
    forall c | CornerOf(c, near, far) && Natural(c)
      ensures Get(cur, dims, Wrap(c, dims)) == Get(seeded, dims, Wrap(c, dims))
    {
      WrappedCorner(c, near, dims, density);
    }
    BlendedFrame(q, near, far, cur, seeded, dims, f, |dims|, []);
    CellOfMember(q, near, dims, density);
  }

  /** One write of the interior traversal keeps the pass settled. */
  lemma FillStep(cur: map<seq<int>, real>, seeded: map<seq<int>, real>, done: set<seq<int>>,
                 q: seq<int>, near: seq<int>, dims: seq<int>, density: int, f: Interpolator)
    requires Layout(dims, density) && EndpointIdentity(f) && OnLattice(near, dims, density)
    requires Natural(near) && Natural(Shift(near, density)) && |q| == |dims|
    requires q in CellPoints(near, density) && Settled(cur, seeded, done, dims, density, f)
    ensures Settled(cur[q := PointValue(cur, q, near, Shift(near, density), dims, f)],
                    seeded, done + {q}, dims, density, f)
  {
    FillValue(cur, seeded, done, q, near, dims, density, f);
    var v := Final(q, seeded, dims, density, f);
    var next := cur[q := v];
    forall p | OnLattice(p, dims, density) ensures Get(next, dims, p) == Get(seeded, dims, p) {
      if p == q {
        LatticeInCell(q, near, dims, density);
        FinalAtLattice(q, seeded, dims, density, f);
      }
    }
  }

  /** The interior traversal of a cell keeps the pass settled and settles the points it visits. */
  lemma {:induction false} FillSettled(cur: map<seq<int>, real>, seeded: map<seq<int>, real>, done: set<seq<int>>,
                                       qs: seq<seq<int>>, near: seq<int>, dims: seq<int>, density: int,
                                       f: Interpolator)
    requires Layout(dims, density) && EndpointIdentity(f) && OnLattice(near, dims, density)
    requires Natural(near) && Natural(Shift(near, density))
    requires forall i :: 0 <= i < |qs| ==> |qs[i]| == |dims| && qs[i] in CellPoints(near, density)
    requires Settled(cur, seeded, done, dims, density, f)
    ensures Settled(Fill(cur, qs, near, Shift(near, density), dims, f), seeded, done + Members(qs),
                    dims, density, f)
    decreases |qs|
  {
    if qs == [] {
      assert done + Members(qs) == done;
    } else {
      var n := |qs| - 1;
      FillSettled(cur, seeded, done, qs[..n], near, dims, density, f);
      var before := Fill(cur, qs[..n], near, Shift(near, density), dims, f);
      FillStep(before, seeded, done + Members(qs[..n]), qs[n], near, dims, density, f);
      assert done + Members(qs) == done + Members(qs[..n]) + {qs[n]} by {
        assert qs == qs[..n] + [qs[n]];
      }
    }
  }

  /** The interpolation pass over lattice cells settles every point of the cells handled. */
  lemma {:induction false} FillAllSettled(seeded: map<seq<int>, real>, nears: seq<seq<int>>, dims: seq<int>,
                                          density: int, f: Interpolator)
    requires Layout(dims, density) && EndpointIdentity(f)
    requires forall i :: 0 <= i < |nears| ==>
      OnLattice(nears[i], dims, density) && |nears[i]| == |dims| && Natural(nears[i])
    ensures Settled(FillAll(seeded, nears, density, dims, f), seeded, Covered(nears, density), dims, density, f)
    decreases |nears|
  {
    if nears != [] {
      var n := |nears| - 1;
      var near := nears[n];
      FillAllSettled(seeded, nears[..n], dims, density, f);
      CellOfFacts(near, dims, density);
      forall k | 0 <= k < |near| ensures Shift(near, density)[k] >= 0 {
      }
      FillSettled(FillAll(seeded, nears[..n], density, dims, f), seeded, Covered(nears[..n], density),
                  CellPoints(near, density), near, dims, density, f);
    }
  }

  /** The grid `gen` leaves, for an interpolator that returns its first value at parameter zero:
      an entry at exactly the grid's points; at each point the multilinear blend, over its cell, of
      the seeded corner values; at the i-th lattice point the sign of the i-th boolean drawn. */
  lemma GenValues(cells: map<seq<int>, real>, dims: seq<int>, density: int, f: Interpolator,
                  coin: nat -> bool, from: nat)
    requires Layout(dims, density) && EndpointIdentity(f)
    requires forall p :: p in cells ==> InBounds(p, dims)
    ensures forall q :: q in Generated(cells, dims, density, f, coin, from) <==> InBounds(q, dims)
    ensures forall q :: InBounds(q, dims) ==>
      Generated(cells, dims, density, f, coin, from)[q] ==
      Final(q, Seed(cells, LatticePoints(dims, density), coin, from), dims, density, f)
    ensures forall i :: 0 <= i < |LatticePoints(dims, density)| ==>
      Generated(cells, dims, density, f, coin, from)[LatticePoints(dims, density)[i]] == Sign(coin(from + i))
  {
    var nears := LatticePoints(dims, density);
    var seeded := Seed(cells, nears, coin, from);
    GenDomain(cells, dims, density, f, coin, from);
    FillAllSettled(seeded, nears, dims, density, f);
    forall q | InBounds(q, dims) ensures q in Covered(nears, density) {
      CoveredExact(dims, density, q);
    }
    SeedingPass(cells, dims, density, coin, from);
    forall i | 0 <= i < |nears|
      ensures Generated(cells, dims, density, f, coin, from)[nears[i]] == Sign(coin(from + i))
    {
      FinalAtLattice(nears[i], seeded, dims, density, f);
    }
  }
}
