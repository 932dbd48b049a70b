/** `SparseModeNew`: a sparse tensor, given as coordinate rows and values,
    regrouped along one fixed mode into a CSR-like structure. `rowPtr[n] ..
    rowPtr[n + 1]` is the segment of the entries whose coordinate in the fixed
    mode is `n`; each stored entry keeps its value and its other coordinates. */
module SparseMode {
  import opened Errors
  import opened Grouping

  /** A coordinate matrix (`MatrixXui32`, nnz x nmodes): `rows[i]` holds the
      coordinates of entry `i`, one per mode; `cols` is the number of modes. */
  datatype IndexMatrix = IndexMatrix(cols: nat, rows: seq<seq<nat>>)
  {
    ghost predicate Wf()
    {
      forall i :: 0 <= i < |rows| ==> |rows[i]| == cols
    }
  }

  /** The coordinate of every entry in the fixed mode. */
  function Keys(idx: IndexMatrix, mode: nat): (keys: seq<nat>)
    requires idx.Wf() && mode < idx.cols
    ensures |keys| == |idx.rows|
    ensures forall i :: 0 <= i < |keys| ==> keys[i] == idx.rows[i][mode]
  {
    seq(|idx.rows|, i requires 0 <= i < |idx.rows| => idx.rows[i][mode])
  }

  /** A coordinate row without its fixed-mode column, the other columns in
      their original order. */
  function DropColumn(row: seq<nat>, mode: nat): (r: seq<nat>)
    requires mode < |row|
    ensures |r| == |row| - 1
    ensures forall q :: 0 <= q < mode ==> r[q] == row[q]
    ensures forall q :: mode <= q < |r| ==> r[q] == row[q + 1]
  {
    row[..mode] + row[mode + 1..]
  }

  /** Every entry's coordinates without the fixed mode. */
  function Reduced(idx: IndexMatrix, mode: nat): (r: seq<seq<nat>>)
    requires idx.Wf() && mode < idx.cols
    ensures |r| == |idx.rows|
    ensures forall i :: 0 <= i < |r| ==> |r[i]| == idx.cols - 1
  {
    seq(|idx.rows|, i requires 0 <= i < |idx.rows| => DropColumn(idx.rows[i], mode))
  }

  /** The rows of a matrix stored in an `array2`. */
  function Rows(m: array2<nat>): (r: seq<seq<nat>>)
    reads m
    ensures |r| == m.Length0
    ensures forall p :: 0 <= p < |r| ==> |r[p]| == m.Length1
  {
    seq(m.Length0, p requires 0 <= p < m.Length0 reads m =>
      seq(m.Length1, q requires 0 <= q < m.Length1 reads m => m[p, q]))
  }

  const U64Modulus: nat := 0x1_0000_0000_0000_0000

  class SparseModeNew {
    var nnz: nat              // m_nnz
    var mode: nat             // m_mode
    var rowPtr: array<nat>    // m_row_ptr
    var values: array<real>   // m_values
    var indices: array2<nat>  // m_indices

    /** One stored entry per non-zero; when `rowPtr` is not empty it runs
        nondecreasing from 0 to `nnz`. */
    ghost predicate Valid()
      reads this, rowPtr
    {
      && values.Length == nnz
      && indices.Length0 == nnz
      && (rowPtr.Length == 0 ==> nnz == 0)
      && (rowPtr.Length > 0 ==>
            && rowPtr[0] == 0
            && rowPtr[rowPtr.Length - 1] == nnz
            && forall a, b :: 0 <= a <= b < rowPtr.Length ==> rowPtr[a] <= rowPtr[b])
    }

    /** The default constructor: no entries, mode 0, every container empty. */
    constructor ()
      ensures Valid()
      ensures nnz == 0 && mode == 0
      ensures rowPtr.Length == 0 && values.Length == 0
      ensures indices.Length0 == 0 && indices.Length1 == 0
    {
      nnz, mode := 0, 0;
      rowPtr := new nat[0];
      values := new real[0];
      indices := new nat[0, 0];
    }

    /** What the coordinate-matrix constructor leaves behind: `nnz`, mode and
        coordinate count as given, and the row pointers, values and remaining
        coordinates laid out as `Grouped` describes. */
    ghost predicate Holds(idx: IndexMatrix, vals: seq<real>, mode: nat, modeSize: nat)
      reads this, rowPtr, values, indices
    {
      && nnz == |vals|
      && this.mode == mode
      && values.Length == nnz
      && indices.Length0 == nnz
      && indices.Length1 + 1 == idx.cols
      && GetNModes() == modeSize
      && Grouped(idx, vals, mode, modeSize, rowPtr[..], values[..], Rows(indices))
    }

    /** The object the coordinate-matrix constructor fills in, from the
        containers its loops have laid out. */
    constructor FromLayout(ghost idx: IndexMatrix, ghost vals: seq<real>, mode: nat, ghost modeSize: nat,
                           rowPtr: array<nat>, values: array<real>, indices: array2<nat>)
      requires Grouped(idx, vals, mode, modeSize, rowPtr[..], values[..], Rows(indices))
      requires forall i :: 0 <= i < |idx.rows| ==> idx.rows[i][mode] < modeSize
      requires values.Length == |vals| && indices.Length0 == |vals| && indices.Length1 + 1 == idx.cols
      requires modeSize + 1 < U64Modulus
      ensures Valid() && Holds(idx, vals, mode, modeSize)
      ensures this.rowPtr == rowPtr && this.values == values && this.indices == indices
    {
      nnz := values.Length;
      this.mode := mode;
      this.rowPtr := rowPtr;
      this.values := values;
      this.indices := indices;
      new;
      GroupedLayout(idx, vals, mode, modeSize, rowPtr[..], values[..], Rows(indices));
      assert forall a :: 0 <= a <= modeSize ==> rowPtr[a] == rowPtr[..][a];
    }

    function GetNNZ(): (r: nat)
      reads this, rowPtr
      ensures Valid() ==> r == values.Length == indices.Length0
    {
      nnz
    }

    /** `m_row_ptr.size() - 1` in 64-bit unsigned arithmetic: on the default
        object, whose `rowPtr` is empty, it wraps around. */
    function GetNModes(): (r: nat)
      reads this
      ensures 0 < rowPtr.Length <= U64Modulus ==> r + 1 == rowPtr.Length
      ensures rowPtr.Length == 0 ==> r == U64Modulus - 1
    {
      (rowPtr.Length - 1) % U64Modulus
    }

    function GetNCoords(): nat
      reads this
    {
      indices.Length1
    }

    function GetMode(): nat
      reads this
    {
      mode
    }

    function GetValues(): seq<real>
      reads this, values
    {
      values[..]
    }

    function GetIndices(): seq<seq<nat>>
      reads this, indices
    {
      Rows(indices)
    }

    /** First stored position of the entries whose fixed coordinate is `n`. */
    function BeginMode(n: nat): (r: nat)
      requires n < rowPtr.Length
      reads this, rowPtr
      ensures Valid() ==> r <= nnz
    {
      rowPtr[n]
    }

    /** One past the last stored position of the entries whose fixed
        coordinate is `n`. */
    function EndMode(n: nat): (r: nat)
      requires n + 1 < rowPtr.Length
      reads this, rowPtr
      ensures Valid() ==> BeginMode(n) <= r <= nnz
    {
      rowPtr[n + 1]
    }
  }

  /** The first loop of the constructor: counts, for every coordinate of the
      fixed mode below `modeSize`, the entries that carry it, and stops at the
      first entry whose coordinate is too large. */
  method CountPerMode(idx: IndexMatrix, mode: nat, modeSize: nat) returns (rowPtr: array<nat>, ok: bool)
    requires idx.Wf() && mode < idx.cols
    ensures fresh(rowPtr) && rowPtr.Length == modeSize + 1
    ensures ok <==> forall i :: 0 <= i < |idx.rows| ==> idx.rows[i][mode] < modeSize
    ensures ok ==> AllBelow(Keys(idx, mode), modeSize)
    ensures ok ==> forall k :: 0 <= k < modeSize ==> rowPtr[k] == CountKey(Keys(idx, mode), k)
    ensures rowPtr[modeSize] == 0
  {
    ghost var keys := Keys(idx, mode);
    rowPtr := new nat[modeSize + 1](_ => 0);
    for i := 0 to |idx.rows|
      invariant AllBelow(keys[..i], modeSize)
      invariant forall k :: 0 <= k < modeSize ==> rowPtr[k] == CountKey(keys[..i], k)
      invariant rowPtr[modeSize] == 0
    {
      var row := idx.rows[i][mode];
      if row >= modeSize {
        return rowPtr, false;
      }
      forall k | 0 <= k < modeSize {
        CountKeyPrefix(keys, i, k);
      }
      rowPtr[row] := rowPtr[row] + 1;
    }
    assert keys[..|idx.rows|] == keys;
    ok := true;
  }

  /** The second loop: turns per-coordinate counts into the exclusive prefix
      sum, and closes `rowPtr` with the total number of entries. */
  method ExclusivePrefixSum(rowPtr: array<nat>, ghost keys: seq<nat>, modeSize: nat, nnz: nat)
    requires rowPtr.Length == modeSize + 1 && AllBelow(keys, modeSize) && nnz == |keys|
    requires forall k :: 0 <= k < modeSize ==> rowPtr[k] == CountKey(keys, k)
    modifies rowPtr
    ensures forall k :: 0 <= k <= modeSize ==> rowPtr[k] == Below(keys, k)
  {
    BelowZero(keys);
    var cumsum := 0;
    for row := 0 to modeSize
      invariant cumsum == Below(keys, row)
      invariant forall k :: 0 <= k < row ==> rowPtr[k] == Below(keys, k)
      invariant forall k :: row <= k < modeSize ==> rowPtr[k] == CountKey(keys, k)
    {
      var temp := rowPtr[row];
      rowPtr[row] := cumsum;
      BelowStep(keys, row);
      cumsum := cumsum + temp;
    }
    BelowAll(keys, modeSize);
    rowPtr[modeSize] := nnz;
  }

  /** The inner loop of the scatter: copies the coordinates of entry `i`,
      except the fixed one, into row `dest` of `indices`. */
  method CopyOtherCoordinates(idx: IndexMatrix, mode: nat, i: nat, indices: array2<nat>, dest: nat)
    requires idx.Wf() && mode < idx.cols && i < |idx.rows|
    requires dest < indices.Length0 && indices.Length1 == idx.cols - 1
    modifies indices
    ensures forall q :: 0 <= q < indices.Length1 ==> indices[dest, q] == Reduced(idx, mode)[i][q]
    ensures forall p, q :: 0 <= p < indices.Length0 && p != dest && 0 <= q < indices.Length1 ==>
      indices[p, q] == old(indices[p, q])
  {
    var nj := 0;
    for j := 0 to idx.cols
      invariant nj == if j <= mode then j else j - 1
      invariant forall q :: 0 <= q < nj ==> indices[dest, q] == DropColumn(idx.rows[i], mode)[q]
      invariant forall p, q :: 0 <= p < indices.Length0 && p != dest && 0 <= q < indices.Length1 ==>
        indices[p, q] == old(indices[p, q])
    {
      if j == mode {
        continue;
      }
      indices[dest, nj] := idx.rows[i][j];
      nj := nj + 1;
    }
  }

  /** The body of the third loop: entry `i` goes to position `dest`, which no
      earlier entry occupies, so the earlier entries stay where they are. */
  method PlaceEntry(idx: IndexMatrix, vals: seq<real>, mode: nat, i: nat,
                    values: array<real>, indices: array2<nat>, dest: nat, ghost slots: seq<nat>)
    requires idx.Wf() && mode < idx.cols && |vals| == |idx.rows|
    requires i < |slots| == |vals| == values.Length == indices.Length0
    requires indices.Length1 == idx.cols - 1
    requires slots[i] == dest && dest < values.Length
    requires forall t :: 0 <= t < i ==> slots[t] < values.Length && slots[t] != dest
    requires forall t :: 0 <= t < i ==> values[slots[t]] == vals[t]
    requires forall t, q :: 0 <= t < i && 0 <= q < idx.cols - 1 ==> indices[slots[t], q] == Reduced(idx, mode)[t][q]
    modifies values, indices
    ensures forall t :: 0 <= t <= i ==> values[slots[t]] == vals[t]
    ensures forall t, q :: 0 <= t <= i && 0 <= q < idx.cols - 1 ==> indices[slots[t], q] == Reduced(idx, mode)[t][q]
  {
    CopyOtherCoordinates(idx, mode, i, indices, dest);
    values[dest] := vals[i];
  }

  /** The third loop: every entry is written at the next free position of
      its coordinate's segment, which is its stable slot. Afterwards
      `rowPtr[k]` holds the end of segment `k`. */
  method Scatter(idx: IndexMatrix, vals: seq<real>, mode: nat, modeSize: nat, rowPtr: array<nat>)
    returns (values: array<real>, indices: array2<nat>)
    requires idx.Wf() && mode < idx.cols && |vals| == |idx.rows|
    requires AllBelow(Keys(idx, mode), modeSize)
    requires rowPtr.Length == modeSize + 1
    requires forall k :: 0 <= k < modeSize ==> rowPtr[k] == Below(Keys(idx, mode), k)
    modifies rowPtr
    ensures fresh(values) && fresh(indices)
    ensures values.Length == |vals| && indices.Length0 == |vals| && indices.Length1 == idx.cols - 1
    ensures forall k :: 0 <= k < modeSize ==> rowPtr[k] == Below(Keys(idx, mode), k + 1)
    ensures rowPtr[modeSize] == old(rowPtr[modeSize])
    ensures forall t :: 0 <= t < |vals| ==> values[Slot(Keys(idx, mode), t)] == vals[t]
    ensures forall t, q :: 0 <= t < |vals| && 0 <= q < idx.cols - 1 ==>
      indices[Slot(Keys(idx, mode), t), q] == Reduced(idx, mode)[t][q]
  {
    ghost var keys, reduced := Keys(idx, mode), Reduced(idx, mode);
    var n := |idx.rows|;
    ghost var slots := seq(n, t requires 0 <= t < n => Slot(keys, t));
    values := new real[n](_ => 0.0);
    indices := new nat[n, idx.cols - 1]((_, _) => 0);
    for i := 0 to n
      invariant forall k :: 0 <= k < modeSize ==> rowPtr[k] == Below(keys, k) + CountKey(keys[..i], k)
      invariant rowPtr[modeSize] == old(rowPtr[modeSize])
      invariant forall t :: 0 <= t < i ==> values[slots[t]] == vals[t]
      invariant forall t, q :: 0 <= t < i && 0 <= q < idx.cols - 1 ==> indices[slots[t], q] == reduced[t][q]
    {
      var row := idx.rows[i][mode];
      var dest := rowPtr[row];
      PlaceNext(keys, i);
      assert dest == slots[i];
      assert forall t :: 0 <= t < i ==> slots[t] != dest;
      PlaceEntry(idx, vals, mode, i, values, indices, dest, slots);
      rowPtr[row] := rowPtr[row] + 1;
    }
    forall k | 0 <= k < modeSize {
      BelowStep(keys, k);
    }
    assert keys[..n] == keys;
  }

  /** The last loop: shifts `rowPtr` one place up, so that `rowPtr[k]` is
      again the start of segment `k`. */
  method ShiftBack(rowPtr: array<nat>, ghost keys: seq<nat>, modeSize: nat)
    requires rowPtr.Length == modeSize + 1
    requires forall k :: 0 <= k < modeSize ==> rowPtr[k] == Below(keys, k + 1)
    requires rowPtr[modeSize] == Below(keys, modeSize)
    modifies rowPtr
    ensures forall k :: 0 <= k <= modeSize ==> rowPtr[k] == Below(keys, k)
  {
    BelowZero(keys);
    var prev := 0;
    for row := 0 to modeSize + 1
      invariant forall k :: 0 <= k < row ==> rowPtr[k] == Below(keys, k)
      invariant forall k :: row <= k < modeSize ==> rowPtr[k] == Below(keys, k + 1)
      invariant row <= modeSize ==> rowPtr[modeSize] == Below(keys, modeSize)
      invariant row <= modeSize ==> prev == Below(keys, row)
    {
      var temp := rowPtr[row];
      rowPtr[row] := prev;
      prev := temp;
    }
  }

  /** The coordinate-matrix constructor of `SparseModeNew`. It fails when the
      numbers of coordinate rows and values differ, or when an entry's
      coordinate in the fixed mode is not below `modeSize`. Otherwise the
      entries are stably grouped by that coordinate: `rowPtr` holds the
      number of entries below each coordinate, and the values and the
      remaining coordinates are stored in grouped order. */
  method Build(idx: IndexMatrix, vals: seq<real>, mode: nat, modeSize: nat)
    returns (r: Result<SparseModeNew>)
    requires idx.Wf()
    requires |idx.rows| == |vals| ==> mode < idx.cols && modeSize + 1 < U64Modulus
    ensures r.Err? <==>
      |idx.rows| != |vals| || exists i :: 0 <= i < |idx.rows| && idx.rows[i][mode] >= modeSize
    ensures |idx.rows| != |vals| ==> r == Err("idx.rows() must equal vals.size()")
    ensures |idx.rows| == |vals| && r.Err? ==> r == Err("SparseMode: mode value larger than mode_size")
    ensures r.Ok? ==> fresh(r.value) && r.value.Valid() && r.value.Holds(idx, vals, mode, modeSize)
  {
    if |idx.rows| != |vals| {
      return Err("idx.rows() must equal vals.size()");
    }
    var rowPtr, ok := CountPerMode(idx, mode, modeSize);
    if !ok {
      return Err("SparseMode: mode value larger than mode_size");
    }
    var values, indices := Layout(idx, vals, mode, modeSize, rowPtr);
    var s := new SparseModeNew.FromLayout(idx, vals, mode, modeSize, rowPtr, values, indices);
    r := Ok(s);
  }

  /** The loops of the constructor after the counting one: prefix sum,
      scatter and shift. */
  method Layout(idx: IndexMatrix, vals: seq<real>, mode: nat, modeSize: nat, rowPtr: array<nat>)
    returns (values: array<real>, indices: array2<nat>)
    requires idx.Wf() && mode < idx.cols && |vals| == |idx.rows|
    requires AllBelow(Keys(idx, mode), modeSize)
    requires rowPtr.Length == modeSize + 1
    requires forall k :: 0 <= k < modeSize ==> rowPtr[k] == CountKey(Keys(idx, mode), k)
    modifies rowPtr
    ensures fresh(values) && fresh(indices)
    ensures values.Length == |vals| && indices.Length0 == |vals| && indices.Length1 + 1 == idx.cols
    ensures Grouped(idx, vals, mode, modeSize, rowPtr[..], values[..], Rows(indices))
  {
    ghost var keys := Keys(idx, mode);
    ExclusivePrefixSum(rowPtr, keys, modeSize, |vals|);
    values, indices := Scatter(idx, vals, mode, modeSize, rowPtr);
    ShiftBack(rowPtr, keys, modeSize);
    ghost var reduced := Reduced(idx, mode);
    forall t | 0 <= t < |vals| ensures Rows(indices)[Slot(keys, t)] == reduced[t] {
    }
    SlotLayoutIsGrouped(idx, vals, mode, modeSize, rowPtr[..], values[..], Rows(indices));
  }

  /** The layout of a `SparseModeNew` built from `idx` and `vals`: `rp[k]` is
      the number of entries whose fixed coordinate is below `k`, and the values
      and the remaining coordinates are the input's, stably grouped by the fixed
      coordinate. */
  ghost predicate Grouped(idx: IndexMatrix, vals: seq<real>, mode: nat, modeSize: nat,
                          rp: seq<nat>, vs: seq<real>, ix: seq<seq<nat>>)
  {
    && idx.Wf() && mode < idx.cols && |vals| == |idx.rows|
    && |rp| == modeSize + 1
    && (forall k :: 0 <= k <= modeSize ==> rp[k] == Below(Keys(idx, mode), k))
    && vs == GroupBy(Keys(idx, mode), vals, modeSize)
    && ix == GroupBy(Keys(idx, mode), Reduced(idx, mode), modeSize)
  }

  /** Writing every entry at its stable slot produces the grouped layout. */
  lemma SlotLayoutIsGrouped(idx: IndexMatrix, vals: seq<real>, mode: nat, modeSize: nat,
                            rp: seq<nat>, vs: seq<real>, ix: seq<seq<nat>>)
    requires idx.Wf() && mode < idx.cols && |vals| == |idx.rows| == |vs| == |ix|
    requires AllBelow(Keys(idx, mode), modeSize)
    requires |rp| == modeSize + 1
    requires forall k :: 0 <= k <= modeSize ==> rp[k] == Below(Keys(idx, mode), k)
    requires forall t :: 0 <= t < |vals| ==> vs[Slot(Keys(idx, mode), t)] == vals[t]
    requires forall t :: 0 <= t < |vals| ==> ix[Slot(Keys(idx, mode), t)] == Reduced(idx, mode)[t]
    ensures Grouped(idx, vals, mode, modeSize, rp, vs, ix)
  {
    GroupByUnique(Keys(idx, mode), vals, modeSize, vs);
    GroupByUnique(Keys(idx, mode), Reduced(idx, mode), modeSize, ix);
  }

  /** What the grouped layout means for the accessors: the row pointers start
      at 0, end at nnz and never decrease; segment `k` is as long as the number
      of entries whose fixed coordinate is `k` and holds exactly their values
      in input order; and the stored values are a permutation of the input
      values. */
  lemma GroupedLayout(idx: IndexMatrix, vals: seq<real>, mode: nat, modeSize: nat,
                      rp: seq<nat>, vs: seq<real>, ix: seq<seq<nat>>)
    requires Grouped(idx, vals, mode, modeSize, rp, vs, ix)
    requires forall i :: 0 <= i < |idx.rows| ==> idx.rows[i][mode] < modeSize
    ensures rp[0] == 0 && rp[modeSize] == |vals| == |vs| == |ix|
    ensures forall a, b :: 0 <= a <= b <= modeSize ==> rp[a] <= rp[b]
    ensures forall k :: 0 <= k < modeSize ==> rp[k + 1] - rp[k] == CountKey(Keys(idx, mode), k)
    ensures forall k :: 0 <= k < modeSize ==> vs[rp[k]..rp[k + 1]] == Select(Keys(idx, mode), vals, k)
    ensures multiset(vs) == multiset(vals)
  {
    var keys := Keys(idx, mode);
    BelowZero(keys);
    BelowAll(keys, modeSize);
    forall a, b | 0 <= a <= b <= modeSize ensures rp[a] <= rp[b] {
      BelowMonotone(keys, a, b);
    }
    forall k | 0 <= k < modeSize
      ensures rp[k + 1] - rp[k] == CountKey(keys, k)
      ensures vs[rp[k]..rp[k + 1]] == Select(keys, vals, k)
    {
      BelowStep(keys, k);
      GroupBySegment(keys, vals, modeSize, k);
    }
    GroupByPermutation(keys, vals, modeSize);
  }

  /** Every input entry `i` is stored at `Slot(keys, i)`, inside the segment
      of its own fixed coordinate, with its value and its other coordinates. */
  lemma EntryStoredInItsSegment(idx: IndexMatrix, vals: seq<real>, mode: nat, modeSize: nat, i: nat)
    requires idx.Wf() && mode < idx.cols && |vals| == |idx.rows|
    requires i < |idx.rows| && idx.rows[i][mode] < modeSize
    ensures var keys := Keys(idx, mode);
      && Below(keys, idx.rows[i][mode]) <= Slot(keys, i) < Below(keys, idx.rows[i][mode] + 1)
      && Slot(keys, i) < |GroupBy(keys, vals, modeSize)|
      && GroupBy(keys, vals, modeSize)[Slot(keys, i)] == vals[i]
      && GroupBy(keys, Reduced(idx, mode), modeSize)[Slot(keys, i)] == DropColumn(idx.rows[i], mode)
  {
    var keys := Keys(idx, mode);
    GroupByAtSlot(keys, vals, modeSize, i);
    GroupByAtSlot(keys, Reduced(idx, mode), modeSize, i);
  }

  /** Stability: entries with the same fixed coordinate keep their input
      order in the grouped layout. */
  lemma SameCoordinateKeepsOrder(idx: IndexMatrix, mode: nat, i: nat, j: nat)
    requires idx.Wf() && mode < idx.cols
    requires i < j < |idx.rows| && idx.rows[i][mode] == idx.rows[j][mode]
    ensures Slot(Keys(idx, mode), i) < Slot(Keys(idx, mode), j)
  {
    SlotStable(Keys(idx, mode), i, j);
  }
}
