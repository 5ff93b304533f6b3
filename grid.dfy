/** The grid the generator fills (`MatrixNf`, whose source is not part of this model): a store of
    real values addressed by coordinate vectors. */
module Grid {

  /** Every dimension size is positive. */
  predicate Positive(dims: seq<int>)
  {
    forall k :: 0 <= k < |dims| ==> dims[k] > 0
  }

  /** Every coordinate is nonnegative. */
  predicate Natural(s: seq<int>)
  {
    forall k :: 0 <= k < |s| ==> s[k] >= 0
  }

  /** p addresses a cell of a grid with the given dimension sizes. */
  predicate InBounds(p: seq<int>, dims: seq<int>)
  {
    |p| == |dims| && forall k :: 0 <= k < |p| ==> 0 <= p[k] < dims[k]
  }

  /** `MatrixNf.get(p)`: the value stored at p; a cell never written holds 0, as a freshly
      allocated float array does. */
  function Get(cells: map<seq<int>, real>, dims: seq<int>, p: seq<int>): real
    requires InBounds(p, dims)
  {
    if p in cells then cells[p] else 0.0
  }
}
