/** `buildEdges`: enumerating the 2^D corners of a cell by the bits of the corner index. */
module Edges {
  import opened Bits

  /** The corners of the cell from `start` to `end`: corner i takes axis d from `start` when bit d
      of i is clear and from `end` when it is set. */
  function Corners(start: seq<int>, end: seq<int>): (edges: seq<seq<int>>)
    requires |start| == |end| <= MaxDims
    ensures |edges| == Pow2(|start|)
    ensures forall i :: 0 <= i < |edges| ==> |edges[i]| == |start|
  {
    seq(Pow2(|start|), i => seq(|start|, d requires 0 <= d < |start| =>
      if !GetBit(i, d) then start[d] else end[d]))
  }

  /** A list of 2^k rows of common width whose first k axes follow the corner bit pattern between
      `lo` and `hi`; the rest of each row is unconstrained. The full corner list is a cube of
      order D, and each half of a cube of order k is a cube of order k - 1. */
  ghost predicate Cube(edges: seq<seq<int>>, k: nat, lo: seq<int>, hi: seq<int>)
  {
    |lo| == |hi| && k <= |lo| && k <= MaxDims && |edges| == Pow2(k) &&
    (forall i :: 0 <= i < |edges| ==> |edges[i]| == |lo|) &&
    forall i, d :: 0 <= i < |edges| && 0 <= d < k ==>
      edges[i][d] == if !GetBit(i, d) then lo[d] else hi[d]
  }

  /** The rows of a two-dimensional array, as values. */
  ghost function Rows(a: array2<int>): (rows: seq<seq<int>>)
    reads a
    ensures |rows| == a.Length0
    ensures forall i :: 0 <= i < a.Length0 ==> |rows[i]| == a.Length1
    ensures forall i, j :: 0 <= i < a.Length0 && 0 <= j < a.Length1 ==> rows[i][j] == a[i, j]
  {
    seq(a.Length0, i requires 0 <= i < a.Length0 reads a =>
      seq(a.Length1, j requires 0 <= j < a.Length1 reads a => a[i, j]))
  }

  /** `buildEdges(start, end)`: fills a fresh 2^D-by-D array, corner by corner and axis by axis. */
  method BuildEdges(start: seq<int>, end: seq<int>) returns (edges: array2<int>)
    requires |start| == |end| <= MaxDims
    ensures fresh(edges)
    ensures edges.Length0 == Pow2(|start|) && edges.Length1 == |start|
    ensures forall i, d :: 0 <= i < edges.Length0 && 0 <= d < edges.Length1 ==>
      edges[i, d] == if !GetBit(i, d) then start[d] else end[d]
    ensures Rows(edges) == Corners(start, end)
  {
    var dims := |start|;
    var count := Power(2, dims);
    edges := new int[count.value, dims];
    for i := 0 to edges.Length0
      invariant forall i', d :: 0 <= i' < i && 0 <= d < dims ==>
        edges[i', d] == if !GetBit(i', d) then start[d] else end[d]
    {
      for dim := 0 to dims
        invariant forall i', d :: 0 <= i' < i && 0 <= d < dims ==>
          edges[i', d] == if !GetBit(i', d) then start[d] else end[d]
        invariant forall d :: 0 <= d < dim ==>
          edges[i, d] == if !GetBit(i, d) then start[d] else end[d]
      {
        if !GetBit(i, dim) {
          edges[i, dim] := start[dim];
        } else {
          edges[i, dim] := end[dim];
        }
      }
    }
    forall i | 0 <= i < edges.Length0 ensures Rows(edges)[i] == Corners(start, end)[i] {
    }
  }

  /** The corner list of a cell is a cube of full order. */
  lemma CornersCube(start: seq<int>, end: seq<int>)
    requires |start| == |end| <= MaxDims
    ensures Cube(Corners(start, end), |start|, start, end)
  {
  }

  /** Corner 0 is the near corner `start`, corner 2^D - 1 the far corner `end`. */
  lemma CornersEnds(start: seq<int>, end: seq<int>)
    requires |start| == |end| <= MaxDims
    ensures Corners(start, end)[0] == start
    ensures Corners(start, end)[Pow2(|start|) - 1] == end
  {
    var e := Corners(start, end);
    forall d | 0 <= d < |start|
      ensures e[0][d] == start[d] && e[Pow2(|start|) - 1][d] == end[d]
    {
      BitOfLow(0, d);
      BitOfAllOnes(|start|, d);
    }
  }

  /** Halving a cube of order k >= 1: the first 2^(k-1) rows take axis k-1 from `lo`, the rest from
      `hi`; row i + 2^(k-1) agrees with row i on every lower axis; and each half is a cube of
      order k - 1. */
  lemma CubeHalves(edges: seq<seq<int>>, k: nat, lo: seq<int>, hi: seq<int>)
    requires Cube(edges, k, lo, hi) && k >= 1
    ensures |edges| == 2 * Pow2(k - 1)
    ensures forall i :: 0 <= i < Pow2(k - 1) ==> edges[i][k - 1] == lo[k - 1]
    ensures forall i :: Pow2(k - 1) <= i < |edges| ==> edges[i][k - 1] == hi[k - 1]
    ensures forall i, d :: 0 <= i < Pow2(k - 1) && 0 <= d < k - 1 ==>
      edges[Pow2(k - 1)..][i][d] == edges[i][d]
    ensures Cube(edges[..Pow2(k - 1)], k - 1, lo, hi)
    ensures Cube(edges[Pow2(k - 1)..], k - 1, lo, hi)
  {
    CubeLowerHalf(edges, k, lo, hi);
    CubeUpperAxis(edges, k, lo, hi);
    CubeUpperHalf(edges, k, lo, hi);
    CubeUpperAgrees(edges, k, lo, hi);
  }

  lemma CubeLowerHalf(edges: seq<seq<int>>, k: nat, lo: seq<int>, hi: seq<int>)
    requires Cube(edges, k, lo, hi) && k >= 1
    ensures |edges| == 2 * Pow2(k - 1)
    ensures forall i :: 0 <= i < Pow2(k - 1) ==> edges[i][k - 1] == lo[k - 1]
    ensures Cube(edges[..Pow2(k - 1)], k - 1, lo, hi)
  {
    Pow2Step(k);
    forall i | 0 <= i < Pow2(k - 1) ensures edges[i][k - 1] == lo[k - 1] {
      BitOfLow(i, k - 1);
    }
  }

  lemma CubeUpperAxis(edges: seq<seq<int>>, k: nat, lo: seq<int>, hi: seq<int>)
    requires Cube(edges, k, lo, hi) && k >= 1
    ensures |edges| == 2 * Pow2(k - 1)
    ensures forall i :: Pow2(k - 1) <= i < |edges| ==> edges[i][k - 1] == hi[k - 1]
  {
    Pow2Step(k);
    forall i | Pow2(k - 1) <= i < |edges| ensures edges[i][k - 1] == hi[k - 1] {
      BitOfHigh(i, k - 1);
    }
  }

  lemma CubeUpperHalf(edges: seq<seq<int>>, k: nat, lo: seq<int>, hi: seq<int>)
    requires Cube(edges, k, lo, hi) && k >= 1
    ensures Cube(edges[Pow2(k - 1)..], k - 1, lo, hi)
  {
    var h := Pow2(k - 1);
    Pow2Step(k);
    forall i, d | 0 <= i < h && 0 <= d < k - 1
      ensures edges[h..][i][d] == (if !GetBit(i, d) then lo[d] else hi[d])
    {
      assert edges[h..][i] == edges[i + h];
      UpperRow(edges, k, lo, hi, i, d);
    }
  }

  lemma CubeUpperAgrees(edges: seq<seq<int>>, k: nat, lo: seq<int>, hi: seq<int>)
    requires Cube(edges, k, lo, hi) && k >= 1
    ensures forall i, d :: 0 <= i < Pow2(k - 1) && 0 <= d < k - 1 ==>
      edges[Pow2(k - 1)..][i][d] == edges[i][d]
  {
    var h := Pow2(k - 1);
    Pow2Step(k);
    forall i, d | 0 <= i < h && 0 <= d < k - 1 ensures edges[h..][i][d] == edges[i][d] {
      assert edges[h..][i] == edges[i + h];
      UpperRow(edges, k, lo, hi, i, d);
    }
  }

  lemma UpperRow(edges: seq<seq<int>>, k: nat, lo: seq<int>, hi: seq<int>, i: nat, d: nat)
    requires Cube(edges, k, lo, hi) && k >= 1 && i < Pow2(k - 1) && d < k - 1
    ensures i + Pow2(k - 1) < |edges|
    ensures edges[i + Pow2(k - 1)][d] == edges[i][d] == if !GetBit(i, d) then lo[d] else hi[d]
  {
    Pow2Step(k);
    BitOfShifted(i, k - 1, d);
  }

  /** The corner-layout facts for a cell of D >= 1 axes, stated on the corner list itself. */
  lemma CornersHalving(start: seq<int>, end: seq<int>)
    requires |start| == |end| && 1 <= |start| <= MaxDims
    ensures var e, h, top := Corners(start, end), Pow2(|start| - 1), |start| - 1;
      |e| == 2 * h &&
      (forall i :: 0 <= i < h ==> e[i][top] == start[top]) &&
      (forall i :: h <= i < |e| ==> e[i][top] == end[top]) &&
      (forall i :: 0 <= i < h ==> e[h..][i] == e[i][top := end[top]])
  {
    var e, h, top := Corners(start, end), Pow2(|start| - 1), |start| - 1;
    CornersCube(start, end);
    CubeHalves(e, |start|, start, end);
    forall i | 0 <= i < h ensures e[h..][i] == e[i][top := end[top]] {
      assert e[h..][i] == e[i + h];
    }
  }

  /** The corners of the two-dimensional cell from [0, 0] to [2, 2], in index order. */
  lemma CornersExample()
    ensures Corners([0, 0], [2, 2]) == [[0, 0], [2, 0], [0, 2], [2, 2]]
  {
    var e := Corners([0, 0], [2, 2]);
    assert Pow2(0) == 1 && Pow2(1) == 2 && Pow2(2) == 4;
    BitOfLow(0, 0);
    BitOfLow(0, 1);
    BitOfHigh(1, 0);
    BitOfLow(1, 1);
    BitOfShifted(0, 1, 0);
    BitOfHigh(2, 1);
    BitOfShifted(1, 1, 0);
    BitOfHigh(3, 1);
    assert e[0] == [0, 0];
    assert e[1] == [2, 0];
    assert e[2] == [0, 2];
    assert e[3] == [2, 2];
  }
}
