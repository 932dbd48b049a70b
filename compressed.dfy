/** Eigen's compressed sparse storage (`SparseMatrix`), as the library reads
    it through `outerIndexPtr`, `innerIndexPtr` and `valuePtr`: the stored
    entries of outer vector `k` (a row of a row-major matrix, a column of a
    column-major one) are the positions `outer[k] .. outer[k + 1]`; position
    `p` holds inner index `inner[p]` and value `vals[p]`. */
module Compressed {

  datatype Sparse = Sparse(outer: seq<nat>, inner: seq<nat>, vals: seq<real>, innerSize: nat)
  {
    /** Well-formed compressed storage: the outer pointers start at 0, never
        decrease and end at the number of stored entries, and every inner
        index is below the inner dimension. */
    ghost predicate Wf()
    {
      && |outer| >= 1
      && outer[0] == 0
      && outer[|outer| - 1] == |vals| == |inner|
      && (forall a, b :: 0 <= a <= b < |outer| ==> outer[a] <= outer[b])
      && (forall p :: 0 <= p < |inner| ==> inner[p] < innerSize)
    }

    /** The number of outer vectors (`outerSize()`). */
    function OuterSize(): nat
    {
      if |outer| == 0 then 0 else |outer| - 1
    }
  }
}
