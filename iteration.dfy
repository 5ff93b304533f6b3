/** `each`: the odometer-style iteration over a box of coordinate vectors. */
module Iteration {
  import Bits

  /** The values one axis runs through in `each`'s for-loop: from b upward by step while below e. */
  function AxisValues(b: int, e: int, step: int): (vs: seq<int>)
    requires step > 0
    decreases e - b
  {
    if b < e then [b] + AxisValues(b + step, e, step) else []
  }

  /** x is reached from b by whole steps and lies below e. */
  ghost predicate OnAxis(x: int, b: int, e: int, step: int)
    requires step > 0
  {
    b <= x < e && (x - b) % step == 0
  }

  /** The for-loop of `each` visits exactly the values on its axis. */
  lemma {:induction false} AxisValuesMember(b: int, e: int, step: int, x: int)
    requires step > 0
    ensures x in AxisValues(b, e, step) <==> OnAxis(x, b, e, step)
    decreases e - b
  {
    if b < e {
      AxisValuesMember(b + step, e, step, x);
      assert (x - (b + step)) % step == (x - b) % step by {
        ModSubStep(x - b, step);
      }
      if b < x < b + step {
        assert (x - b) % step == x - b;
      }
    }
  }

  lemma ModSubStep(y: int, step: int)
    requires step > 0
    ensures (y - step) % step == y % step
  {
    var z := y / step;
    assert y == step * z + y % step;
    Bits.MulSub(step, z, 1);
    Bits.DivUnique(y - step, step, z - 1, y % step);
  }

  /** The for-loop of `each` visits its values in strictly increasing order, all at least b. */
  lemma {:induction false} AxisValuesIncreasing(b: int, e: int, step: int)
    requires step > 0
    ensures forall i :: 0 <= i < |AxisValues(b, e, step)| ==> b <= AxisValues(b, e, step)[i]
    ensures forall i, j :: 0 <= i < j < |AxisValues(b, e, step)| ==>
      AxisValues(b, e, step)[i] < AxisValues(b, e, step)[j]
    decreases e - b
  {
    if b < e {
      AxisValuesIncreasing(b + step, e, step);
      var vs := AxisValues(b, e, step);
      assert vs[1..] == AxisValues(b + step, e, step);
    }
  }

  /** The positions `each` hands to its callback, in order, when it starts at axis d with
      pos[..d] == prefix: each axis from d upward runs through its AxisValues, axis d outermost
      and the last axis innermost. */
  function Lattice(prefix: seq<int>, begin: seq<int>, end: seq<int>, step: int, d: nat): seq<seq<int>>
    requires |begin| == |end| && d < |begin| && step > 0
    decreases |begin| - d, 2, 0
  {
    Sweep(prefix, AxisValues(begin[d], end[d], step), begin, end, step, d)
  }

  /** The positions visited while axis d runs through the values vs. */
  function Sweep(prefix: seq<int>, vs: seq<int>, begin: seq<int>, end: seq<int>, step: int, d: nat): seq<seq<int>>
    requires |begin| == |end| && d < |begin| && step > 0
    decreases |begin| - d, 1, |vs|
  {
    if vs == [] then []
    else Block(prefix, vs[0], begin, end, step, d) + Sweep(prefix, vs[1..], begin, end, step, d)
  }

  /** The positions visited while axis d holds the value v. */
  function Block(prefix: seq<int>, v: int, begin: seq<int>, end: seq<int>, step: int, d: nat): seq<seq<int>>
    requires |begin| == |end| && d < |begin| && step > 0
    decreases |begin| - d, 0, 0
  {
    if d == |begin| - 1 then [prefix + [v]] else Lattice(prefix + [v], begin, end, step, d + 1)
  }

  /** `each(callback, pos, dimensions, dimension, begin, end, step)`: for every value i of axis
      `dimension` it sets pos[dimension] := i and then either calls the callback (on the last axis)
      or recurses into the next axis. The calls are returned as the sequence of the snapshots of
      `pos` the callback would see. */
  method Each(pos: array<int>, dimensions: int, dimension: int, begin: seq<int>, end: seq<int>, step: int)
    returns (visits: seq<seq<int>>)
    requires pos.Length == dimensions == |begin| == |end|
    requires 0 <= dimension < dimensions && step > 0
    modifies pos
    ensures pos[..dimension] == old(pos[..dimension])
    ensures visits == Lattice(old(pos[..dimension]), begin, end, step, dimension)
    decreases dimensions - dimension
  {
    ghost var prefix := pos[..dimension];
    visits := [];
    var i := begin[dimension];
    while i < end[dimension]
      invariant pos[..dimension] == prefix
      invariant visits + Sweep(prefix, AxisValues(i, end[dimension], step), begin, end, step, dimension)
        == Lattice(prefix, begin, end, step, dimension)
      decreases end[dimension] - i
    {
      ghost var rest := AxisValues(i + step, end[dimension], step);
      ghost var block := Block(prefix, i, begin, end, step, dimension);
      ghost var later := Sweep(prefix, rest, begin, end, step, dimension);
      assert ([i] + rest)[1..] == rest;
      assert Sweep(prefix, AxisValues(i, end[dimension], step), begin, end, step, dimension) == block + later;
      ghost var before := visits;
      pos[dimension] := i;
      assert pos[..dimension + 1] == prefix + [i];
      if dimension == dimensions - 1 {
        assert pos[..] == pos[..dimension + 1];
        visits := visits + [pos[..]];
      } else {
        var inner := Each(pos, dimensions, dimension + 1, begin, end, step);
        visits := visits + inner;
        assert pos[..dimension] == pos[..dimension + 1][..dimension];
      }
      assert visits == before + block;
      assert visits + later == before + (block + later);
      i := i + step;
    }
  }

  /** Shape of the positions visited while axis d runs through vs. */
  lemma {:induction false} SweepShape(prefix: seq<int>, vs: seq<int>, begin: seq<int>, end: seq<int>, step: int, d: nat)
    requires |begin| == |end| && d < |begin| && step > 0 && |prefix| == d
    ensures forall v :: v in Sweep(prefix, vs, begin, end, step, d) ==>
      |v| == |begin| && v[..d] == prefix && v[d] in vs &&
      forall k :: d < k < |begin| ==> OnAxis(v[k], begin[k], end[k], step)
    decreases |begin| - d, |vs|
  {
    if vs != [] {
      BlockShape(prefix, vs[0], begin, end, step, d);
      SweepShape(prefix, vs[1..], begin, end, step, d);
      var block, rest := Block(prefix, vs[0], begin, end, step, d), Sweep(prefix, vs[1..], begin, end, step, d);
      assert Sweep(prefix, vs, begin, end, step, d) == block + rest;
      forall v | v in block + rest ensures v[d] in vs {
        if v !in block {
          assert v[d] in vs[1..];
        }
      }
    }
  }


  /** Every vector on the axes' value sets, extending prefix, is visited while axis d runs through vs. */
  lemma {:induction false} SweepComplete(prefix: seq<int>, vs: seq<int>, begin: seq<int>, end: seq<int>, step: int, d: nat, v: seq<int>)
    requires |begin| == |end| && d < |begin| && step > 0 && |prefix| == d
    requires |v| == |begin| && v[..d] == prefix && v[d] in vs
    requires forall k :: d < k < |begin| ==> OnAxis(v[k], begin[k], end[k], step)
    ensures v in Sweep(prefix, vs, begin, end, step, d)
    decreases |begin| - d, |vs|
  {
    if v[d] == vs[0] {
      var p := prefix + [vs[0]];
      assert v[..d + 1] == p;
      if d == |begin| - 1 {
        assert v == p;
      } else {
        AxisValuesMember(begin[d + 1], end[d + 1], step, v[d + 1]);
        SweepComplete(p, AxisValues(begin[d + 1], end[d + 1], step), begin, end, step, d + 1, v);
        assert Block(prefix, vs[0], begin, end, step, d)
          == Sweep(p, AxisValues(begin[d + 1], end[d + 1], step), begin, end, step, d + 1);
      }
      assert v in Block(prefix, vs[0], begin, end, step, d);
    } else {
      SweepComplete(prefix, vs[1..], begin, end, step, d, v);
      assert Sweep(prefix, vs, begin, end, step, d)
        == Block(prefix, vs[0], begin, end, step, d) + Sweep(prefix, vs[1..], begin, end, step, d);
    }
  }

  /** `each` visits exactly the vectors that keep pos[..d] and put every later axis k on
      begin[k], begin[k] + step, ... below end[k]. */
  lemma LatticeMember(prefix: seq<int>, begin: seq<int>, end: seq<int>, step: int, d: nat, v: seq<int>)
    requires |begin| == |end| && d < |begin| && step > 0 && |prefix| == d
    ensures v in Lattice(prefix, begin, end, step, d) <==>
      |v| == |begin| && v[..d] == prefix &&
      forall k :: d <= k < |begin| ==> OnAxis(v[k], begin[k], end[k], step)
  {
    var av := AxisValues(begin[d], end[d], step);
    SweepShape(prefix, av, begin, end, step, d);
    if |v| == |begin| {
      AxisValuesMember(begin[d], end[d], step, v[d]);
    }
    if |v| == |begin| && v[..d] == prefix && forall k :: d <= k < |begin| ==> OnAxis(v[k], begin[k], end[k], step) {
      SweepComplete(prefix, av, begin, end, step, d, v);
    }
  }

  /** `each` makes no call at all when some axis range is empty. */
  lemma LatticeEmpty(prefix: seq<int>, begin: seq<int>, end: seq<int>, step: int, d: nat, k: nat)
    requires |begin| == |end| && d <= k < |begin| && step > 0 && |prefix| == d
    requires begin[k] >= end[k]
    ensures Lattice(prefix, begin, end, step, d) == []
  {
    var l := Lattice(prefix, begin, end, step, d);
    if l != [] {
      LatticeMember(prefix, begin, end, step, d, l[0]);
    }
  }

  /** a comes before b in lexicographic order. */
  ghost predicate LexLess(a: seq<int>, b: seq<int>)
  {
    exists k :: 0 <= k < |a| && k < |b| && a[..k] == b[..k] && a[k] < b[k]
  }

  ghost predicate LexSorted(s: seq<seq<int>>)
  {
    forall i, j :: 0 <= i < j < |s| ==> LexLess(s[i], s[j])
  }

  lemma SortedConcat(a: seq<seq<int>>, b: seq<seq<int>>)
    requires LexSorted(a) && LexSorted(b)
    requires forall x, y :: x in a && y in b ==> LexLess(x, y)
    ensures LexSorted(a + b)
  {
    var s := a + b;
    forall i, j | 0 <= i < j < |s| ensures LexLess(s[i], s[j]) {
      if j < |a| {
        assert s[i] == a[i] && s[j] == a[j];
      } else if i >= |a| {
        assert s[i] == b[i - |a|] && s[j] == b[j - |a|];
      } else {
        assert s[i] in a && s[j] in b;
      }
    }
  }

  lemma LexLessAt(a: seq<int>, b: seq<int>, k: nat)
    requires k < |a| && k < |b| && a[..k] == b[..k] && a[k] < b[k]
    ensures LexLess(a, b)
  {
  }

  /** Every vector of a block keeps the prefix, puts v on axis d and lies on the lattice after it. */
  lemma {:induction false} BlockShape(prefix: seq<int>, v: int, begin: seq<int>, end: seq<int>, step: int, d: nat)
    requires |begin| == |end| && d < |begin| && step > 0 && |prefix| == d
    ensures forall x :: x in Block(prefix, v, begin, end, step, d) ==>
      |x| == |begin| && x[..d] == prefix && x[d] == v &&
      forall k :: d < k < |begin| ==> OnAxis(x[k], begin[k], end[k], step)
    decreases |begin| - d, 0
  {
    if d < |begin| - 1 {
      var p := prefix + [v];
      var av := AxisValues(begin[d + 1], end[d + 1], step);
      SweepShape(p, av, begin, end, step, d + 1);
      assert Block(prefix, v, begin, end, step, d) == Sweep(p, av, begin, end, step, d + 1);
      forall x | x in Block(prefix, v, begin, end, step, d)
        ensures |x| == |begin| && x[..d] == prefix && x[d] == v &&
          forall k :: d < k < |begin| ==> OnAxis(x[k], begin[k], end[k], step)
      {
        ExtendShape(prefix, v, x, begin, end, step, d);
      }
    }
  }

  /** A vector below the block of v on axis d, seen from axis d. */
  lemma ExtendShape(prefix: seq<int>, v: int, x: seq<int>, begin: seq<int>, end: seq<int>, step: int, d: nat)
    requires |begin| == |end| && d + 1 < |begin| && step > 0 && |prefix| == d && |x| == |begin|
    requires x[..d + 1] == prefix + [v] && x[d + 1] in AxisValues(begin[d + 1], end[d + 1], step)
    requires forall k :: d + 1 < k < |begin| ==> OnAxis(x[k], begin[k], end[k], step)
    ensures x[..d] == prefix && x[d] == v && forall k :: d < k < |begin| ==> OnAxis(x[k], begin[k], end[k], step)
  {
    assert x[..d] == x[..d + 1][..d];
    assert x[d] == x[..d + 1][d];
    AxisValuesMember(begin[d + 1], end[d + 1], step, x[d + 1]);
  }


  /** All of the first value's block comes before everything visited for the later values. */
  lemma BlockBeforeRest(prefix: seq<int>, vs: seq<int>, begin: seq<int>, end: seq<int>, step: int, d: nat)
    requires |begin| == |end| && d < |begin| && step > 0 && |prefix| == d
    requires |vs| > 0 && forall i, j :: 0 <= i < j < |vs| ==> vs[i] < vs[j]
    ensures forall x, y ::
      (x in Block(prefix, vs[0], begin, end, step, d) && y in Sweep(prefix, vs[1..], begin, end, step, d))
      ==> LexLess(x, y)
  {
    BlockShape(prefix, vs[0], begin, end, step, d);
    SweepShape(prefix, vs[1..], begin, end, step, d);
    forall x, y | x in Block(prefix, vs[0], begin, end, step, d) && y in Sweep(prefix, vs[1..], begin, end, step, d)
      ensures LexLess(x, y)
    {
      assert y[d] in vs[1..];
      LexLessAt(x, y, d);
    }
  }

  lemma {:induction false} SweepSorted(prefix: seq<int>, vs: seq<int>, begin: seq<int>, end: seq<int>, step: int, d: nat)
    requires |begin| == |end| && d < |begin| && step > 0 && |prefix| == d
    requires forall i, j :: 0 <= i < j < |vs| ==> vs[i] < vs[j]
    ensures LexSorted(Sweep(prefix, vs, begin, end, step, d))
    decreases |begin| - d, |vs|
  {
    if vs != [] {
      var p := prefix + [vs[0]];
      SweepSorted(prefix, vs[1..], begin, end, step, d);
      if d < |begin| - 1 {
        AxisValuesIncreasing(begin[d + 1], end[d + 1], step);
        SweepSorted(p, AxisValues(begin[d + 1], end[d + 1], step), begin, end, step, d + 1);
        assert Block(prefix, vs[0], begin, end, step, d)
          == Sweep(p, AxisValues(begin[d + 1], end[d + 1], step), begin, end, step, d + 1);
      }
      BlockBeforeRest(prefix, vs, begin, end, step, d);
      SortedConcat(Block(prefix, vs[0], begin, end, step, d), Sweep(prefix, vs[1..], begin, end, step, d));
    }
  }

  /** `each` visits its vectors in strictly increasing lexicographic order, axis d outermost. */
  lemma LatticeSorted(prefix: seq<int>, begin: seq<int>, end: seq<int>, step: int, d: nat)
    requires |begin| == |end| && d < |begin| && step > 0 && |prefix| == d
    ensures LexSorted(Lattice(prefix, begin, end, step, d))
  {
    AxisValuesIncreasing(begin[d], end[d], step);
    SweepSorted(prefix, AxisValues(begin[d], end[d], step), begin, end, step, d);
  }

  /** Hence `each` calls its callback at most once per vector. */
  lemma LatticeDistinct(prefix: seq<int>, begin: seq<int>, end: seq<int>, step: int, d: nat)
    requires |begin| == |end| && d < |begin| && step > 0 && |prefix| == d
    ensures forall i, j :: 0 <= i < j < |Lattice(prefix, begin, end, step, d)| ==>
      Lattice(prefix, begin, end, step, d)[i] != Lattice(prefix, begin, end, step, d)[j]
  {
    LatticeSorted(prefix, begin, end, step, d);
  }
}
