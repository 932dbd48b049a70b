/** The matrix kernels of the block conjugate-gradient solver. Dense matrices
    are `array2<real>` indexed `[row, column]`; the raw-pointer arithmetic of
    the column-major Eigen storage (`Y[row * N + j]` is entry `(j, row)`) is
    written as that entry. Sparse matrices are row-major compressed storage. */
module Kernels {
  import opened Errors
  import opened Compressed

  /** A dense matrix as a value: a sequence of rows. */
  type Mat = seq<seq<real>>

  function Min(a: int, b: int): int { if a <= b then a else b }

  // ------------------------------------------------------------ dense algebra

  /** The dot product of the first `n` entries of `u` and `v`. */
  function VecDot(u: seq<real>, v: seq<real>, n: nat): real
    requires n <= |u| && n <= |v|
  {
    if n == 0 then 0.0 else VecDot(u, v, n - 1) + u[n - 1] * v[n - 1]
  }

  lemma {:induction false} DotOfZero(u: seq<real>, v: seq<real>, n: nat)
    requires n <= |u| && n <= |v|
    requires forall c :: 0 <= c < |u| ==> u[c] == 0.0
    ensures VecDot(u, v, n) == 0.0
  {
    if n > 0 {
      DotOfZero(u, v, n - 1);
    }
  }

  /** Adding `delta` to entry `k` of `u` adds `delta * v[k]` to the dot
      product, when `k` is among the first `n` entries. */
  lemma {:induction false} DotBump(u: seq<real>, u': seq<real>, v: seq<real>, n: nat, k: nat, delta: real)
    requires n <= |u| == |u'| && n <= |v|
    requires forall c :: 0 <= c < |u| && c != k ==> u'[c] == u[c]
    requires k < |u| ==> u'[k] == u[k] + delta
    ensures VecDot(u', v, n) == VecDot(u, v, n) + (if k < n then delta * v[k] else 0.0)
  {
    if n > 0 {
      DotBump(u, u', v, n - 1, k, delta);
    }
  }

  /** Row `j` of `x`. */
  function RowOf(x: array2<real>, j: nat): (r: seq<real>)
    requires j < x.Length0
    reads x
    ensures |r| == x.Length1 && forall c :: 0 <= c < x.Length1 ==> r[c] == x[j, c]
  {
    seq(x.Length1, c reads x => if 0 <= c < x.Length1 then x[j, c] else 0.0)
  }

  /** Column `c` of `x`. */
  function ColOf(x: array2<real>, c: nat): (r: seq<real>)
    requires c < x.Length1
    reads x
    ensures |r| == x.Length0 && forall k :: 0 <= k < x.Length0 ==> r[k] == x[k, c]
  {
    seq(x.Length0, k reads x => if 0 <= k < x.Length0 then x[k, c] else 0.0)
  }

  /** The value of a dense array. */
  function MatOf(x: array2<real>): (m: Mat)
    reads x
    ensures |m| == x.Length0 && forall r :: 0 <= r < x.Length0 ==> m[r] == RowOf(x, r)
  {
    seq(x.Length0, r reads x => if 0 <= r < x.Length0 then RowOf(x, r) else [])
  }

  /** Every row of `a` has `cols` entries. */
  ghost predicate Shaped(a: Mat, cols: nat)
  {
    forall r :: 0 <= r < |a| ==> |a[r]| == cols
  }

  function Column(a: Mat, c: nat): (col: seq<real>)
    requires forall r :: 0 <= r < |a| ==> c < |a[r]|
    ensures |col| == |a| && forall r :: 0 <= r < |a| ==> col[r] == a[r][c]
  {
    seq(|a|, r requires 0 <= r < |a| => a[r][c])
  }

  /** The entries of `a * v'`: row `r` of `a` dotted with `v`. */
  function Products(a: Mat, v: seq<real>): (p: seq<real>)
    requires Shaped(a, |v|)
    ensures |p| == |a| && forall r :: 0 <= r < |a| ==> p[r] == VecDot(a[r], v, |v|)
  {
    seq(|a|, r requires 0 <= r < |a| => VecDot(a[r], v, |v|))
  }

  /** Entry `c` of `(a' * (a * v'))'`: what `AtA_mul_B_switch` with a dense
      `A` puts in row `j` of `out` (before adding `reg * B`) when `v` is row
      `j` of `B`. */
  function GramEntry(a: Mat, v: seq<real>, c: nat): real
    requires Shaped(a, |v|) && c < |v|
  {
    VecDot(Column(a, c), Products(a, v), |a|)
  }

  // ----------------------------------------------------------- sparse algebra

  /** The sum, over the stored positions `p` of row `row` before `hi`, of
      `x[j, inner[p]] * vals[p]`: the order the kernels accumulate in. */
  ghost function SegSum(a: Sparse, row: nat, x: array2<real>, j: nat, hi: nat): real
    requires a.Wf() && row < a.OuterSize() && a.outer[row] <= hi <= a.outer[row + 1]
    requires j < x.Length0 && a.innerSize <= x.Length1
    reads x
    decreases hi - a.outer[row]
  {
    if hi == a.outer[row] then 0.0
    else SegSum(a, row, x, j, hi - 1) + x[j, a.inner[hi - 1]] * a.vals[hi - 1]
  }

  /** Row `row` of the sparse matrix dotted with row `j` of `x`. */
  ghost function RowTimes(a: Sparse, row: nat, x: array2<real>, j: nat): real
    requires a.Wf() && row < a.OuterSize() && j < x.Length0 && a.innerSize <= x.Length1
    reads x
  {
    SegSum(a, row, x, j, a.outer[row + 1])
  }

  /** Dense entry `(row, c)` counting the stored positions before `hi` only:
      the values stored at column `c`, added up. */
  ghost function EntrySum(a: Sparse, row: nat, c: nat, hi: nat): real
    requires a.Wf() && row < a.OuterSize() && a.outer[row] <= hi <= a.outer[row + 1]
    decreases hi - a.outer[row]
  {
    if hi == a.outer[row] then 0.0
    else EntrySum(a, row, c, hi - 1) + (if a.inner[hi - 1] == c then a.vals[hi - 1] else 0.0)
  }

  ghost function DenseRowUpTo(a: Sparse, row: nat, hi: nat): (r: seq<real>)
    requires a.Wf() && row < a.OuterSize() && a.outer[row] <= hi <= a.outer[row + 1]
    ensures |r| == a.innerSize && forall c :: 0 <= c < a.innerSize ==> r[c] == EntrySum(a, row, c, hi)
  {
    seq(a.innerSize, c requires 0 <= c < a.innerSize => EntrySum(a, row, c, hi))
  }

  /** The dense matrix the compressed storage stands for. */
  ghost function DenseOf(a: Sparse): (d: Mat)
    requires a.Wf()
    ensures |d| == a.OuterSize() && Shaped(d, a.innerSize)
    ensures forall r :: 0 <= r < a.OuterSize() ==> d[r] == DenseRowUpTo(a, r, a.outer[r + 1])
  {
    seq(a.OuterSize(), r requires 0 <= r < a.OuterSize() => DenseRowUpTo(a, r, a.outer[r + 1]))
  }

  /** The sparse row product is the dense one: walking the stored positions
      of a row gives the dot product of the dense row with `x`'s row. */
  lemma SparseRowIsDense(a: Sparse, row: nat, x: array2<real>, j: nat)
    requires a.Wf() && row < a.OuterSize() && j < x.Length0 && a.innerSize <= x.Length1
    ensures RowTimes(a, row, x, j) == VecDot(DenseOf(a)[row], RowOf(x, j), a.innerSize)
  {
    var v := RowOf(x, j);
    var lo := a.outer[row];
    assert a.outer[row] <= a.outer[row + 1];
    DotOfZero(DenseRowUpTo(a, row, lo), v, a.innerSize);
    for hi := lo to a.outer[row + 1]
      invariant SegSum(a, row, x, j, hi) == VecDot(DenseRowUpTo(a, row, hi), v, a.innerSize)
    {
      SegSumStep(a, row, x, j, hi);
    }
  }

  /** One more stored position adds its value to one entry of the dense row,
      and its product to the row product. */
  lemma SegSumStep(a: Sparse, row: nat, x: array2<real>, j: nat, hi: nat)
    requires a.Wf() && row < a.OuterSize() && j < x.Length0 && a.innerSize <= x.Length1
    requires a.outer[row] <= hi < a.outer[row + 1]
    requires SegSum(a, row, x, j, hi) == VecDot(DenseRowUpTo(a, row, hi), RowOf(x, j), a.innerSize)
    ensures SegSum(a, row, x, j, hi + 1) == VecDot(DenseRowUpTo(a, row, hi + 1), RowOf(x, j), a.innerSize)
  {
    var u, u' := DenseRowUpTo(a, row, hi), DenseRowUpTo(a, row, hi + 1);
    assert a.inner[hi] < a.innerSize;
    assert forall c :: 0 <= c < |u| && c != a.inner[hi] ==> u'[c] == u[c];
    assert u'[a.inner[hi]] == u[a.inner[hi]] + a.vals[hi];
    DotBump(u, u', RowOf(x, j), a.innerSize, a.inner[hi], a.vals[hi]);
  }

  // ------------------------------------------------------------- A_mul_Bx

  /** The first of `A_mul_Bx<N>`'s size checks that fails. The model's
      messages name the condition that failed. */
  function AMulBxFailure(n: nat, out: array2<real>, a: Sparse, b: array2<real>): Option<string>
  {
    if n != out.Length0 then Some("N == out.rows()")
    else if n != b.Length0 then Some("N == B.rows()")
    else if a.innerSize != b.Length1 then Some("A.cols() == B.cols()")
    else if a.OuterSize() != out.Length1 then Some("A.rows() == out.cols()")
    else None
  }

  /** `out = (A * B')'`: entry `(j, row)` is row `row` of `A` dotted with
      row `j` of `B`. */
  ghost predicate AMulBxDone(n: nat, out: array2<real>, a: Sparse, b: array2<real>)
    requires a.Wf() && n <= out.Length0 && a.OuterSize() <= out.Length1 && n <= b.Length0 && a.innerSize <= b.Length1
    reads out, b
  {
    forall j, row :: 0 <= j < n && 0 <= row < a.OuterSize() ==> out[j, row] == RowTimes(a, row, b, j)
  }

  /** `tmp[j]` for one row of `A`: the stored entries of the row, each times
      the matching entry of row `j` of `x`, accumulated in storage order. */
  method AccumulateRow(n: nat, a: Sparse, x: array2<real>, row: nat) returns (tmp: array<real>)
    requires a.Wf() && row < a.OuterSize() && n <= x.Length0 && a.innerSize <= x.Length1
    ensures fresh(tmp) && tmp.Length == n
    ensures forall j :: 0 <= j < n ==> tmp[j] == RowTimes(a, row, x, j)
  {
    tmp := new real[n](_ => 0.0);
    assert a.outer[row] <= a.outer[row + 1];
    for i := a.outer[row] to a.outer[row + 1]
      invariant forall j :: 0 <= j < n ==> tmp[j] == SegSum(a, row, x, j, i)
    {
      AddScaledColumn(tmp, x, a.inner[i], a.vals[i]);
    }
  }

  /** `tmp[j] += X[col, j] * val` for every `j`: one stored entry's
      contribution. */
  method AddScaledColumn(tmp: array<real>, x: array2<real>, col: nat, val: real)
    requires tmp.Length <= x.Length0 && col < x.Length1
    modifies tmp
    ensures forall j :: 0 <= j < tmp.Length ==> tmp[j] == old(tmp[j]) + x[j, col] * val
  {
    for j := 0 to tmp.Length
      invariant forall t :: 0 <= t < j ==> tmp[t] == old(tmp[t]) + x[t, col] * val
      invariant forall t :: j <= t < tmp.Length ==> tmp[t] == old(tmp[t])
    {
      tmp[j] := tmp[j] + x[j, col] * val;
    }
  }

  /** Column `c` of `out` becomes `vals`; the other columns are kept. */
  method SetColumn(out: array2<real>, c: nat, vals: seq<real>)
    requires c < out.Length1 && |vals| == out.Length0
    modifies out
    ensures forall j :: 0 <= j < out.Length0 ==> out[j, c] == vals[j]
    ensures forall j, k :: 0 <= j < out.Length0 && 0 <= k < out.Length1 && k != c ==> out[j, k] == old(out[j, k])
  {
    for j := 0 to out.Length0
      invariant forall t :: 0 <= t < j ==> out[t, c] == vals[t]
      invariant forall t, k :: 0 <= t < out.Length0 && 0 <= k < out.Length1 && (k != c || t >= j) ==> out[t, k] == old(out[t, k])
    {
      out[j, c] := vals[j];
    }
  }

  /** Row `j` of `out` becomes `vals`; the other rows are kept. */
  method SetRow(out: array2<real>, j: nat, vals: seq<real>)
    requires j < out.Length0 && |vals| == out.Length1
    modifies out
    ensures forall c :: 0 <= c < out.Length1 ==> out[j, c] == vals[c]
    ensures forall t, k :: 0 <= t < out.Length0 && 0 <= k < out.Length1 && t != j ==> out[t, k] == old(out[t, k])
  {
    for c := 0 to out.Length1
      invariant forall k :: 0 <= k < c ==> out[j, k] == vals[k]
      invariant forall t, k :: 0 <= t < out.Length0 && 0 <= k < out.Length1 && (t != j || k >= c) ==> out[t, k] == old(out[t, k])
    {
      out[j, c] := vals[c];
    }
  }

  /** `A_mul_Bx<N>`: after its size checks, column `row` of `out` receives
      row `row` of `A` times `B'`, for every row of `A`. */
  method AMulBx(n: nat, out: array2<real>, a: Sparse, b: array2<real>) returns (o: Outcome)
    requires a.Wf() && out != b
    modifies out
    ensures o == (if AMulBxFailure(n, out, a, b).Some? then Fail(AMulBxFailure(n, out, a, b).value) else Pass)
    ensures o.Fail? ==> unchanged(out)
    ensures o.Pass? ==> AMulBxDone(n, out, a, b)
  {
    var failure := AMulBxFailure(n, out, a, b);
    if failure.Some? {
      return Fail(failure.value);
    }
    for row := 0 to a.OuterSize()
      invariant forall j, r :: 0 <= j < n && 0 <= r < row ==> out[j, r] == RowTimes(a, r, b, j)
    {
      var tmp := AccumulateRow(n, a, b, row);
      SetColumn(out, row, tmp[..]);
    }
    o := Pass;
  }

  // ------------------------------------------------------------ AtA_mul_Bx

  /** `SparseSideInfo`: the side-information matrix `A`, stored row-major
      (`m`) and transposed (`mt`). */
  datatype SideInfo = SideInfo(m: Sparse, mt: Sparse)
  {
    /** Both storages well formed, shaped as a matrix and its transpose. */
    ghost predicate Wf()
    {
      m.Wf() && mt.Wf() && mt.OuterSize() == m.innerSize && mt.innerSize == m.OuterSize()
    }

    /** `mt` holds the transpose of `m`, entry for entry. */
    ghost predicate Transposed()
      requires Wf()
    {
      forall r, c :: 0 <= r < m.OuterSize() && 0 <= c < m.innerSize ==> DenseOf(mt)[c][r] == DenseOf(m)[r][c]
    }

    function Rows(): nat { m.OuterSize() }

    function Cols(): nat { m.innerSize }
  }

  /** The first of `AtA_mul_Bx<N>`'s size checks that fails, including the
      first check of the `A_mul_Bx<N>` it calls on `inner`. */
  function AtAMulBxFailure(n: nat, out: array2<real>, side: SideInfo, b: array2<real>, inner: array2<real>): Option<string>
  {
    if n != out.Length0 then Some("N == out.rows()")
    else if n != b.Length0 then Some("N == B.rows()")
    else if side.Cols() != b.Length1 then Some("A.cols() == B.cols()")
    else if side.Cols() != out.Length1 then Some("A.cols() == out.cols()")
    else if side.Rows() != inner.Length1 then Some("A.rows() == inner.cols()")
    else if n != inner.Length0 then Some("N == out.rows()")
    else None
  }

  /** `inner = (A * B')'` and `out = (A' * inner')' + reg * B`. */
  ghost predicate AtAMulBxDone(n: nat, out: array2<real>, side: SideInfo, reg: real, b: array2<real>, inner: array2<real>)
    requires side.Wf()
    requires n <= out.Length0 && n <= b.Length0 && n <= inner.Length0
    requires side.Cols() <= out.Length1 && side.Cols() <= b.Length1 && side.Rows() <= inner.Length1
    reads out, b, inner
  {
    && AMulBxDone(n, inner, side.m, b)
    && forall j, c :: 0 <= j < n && 0 <= c < side.Cols() ==> out[j, c] == RowTimes(side.mt, c, inner, j) + reg * b[j, c]
  }

  /** `AtA_mul_Bx<N>`: after its size checks, `inner` receives `(A * B')'`,
      then column `c` of `out` receives column `c` of `A` dotted with the
      rows of `inner`, plus `reg` times column `c` of `B`. */
  method AtAMulBx(n: nat, out: array2<real>, side: SideInfo, reg: real, b: array2<real>, inner: array2<real>) returns (o: Outcome)
    requires side.Wf() && out != b && out != inner && inner != b
    modifies out, inner
    ensures o == (if AtAMulBxFailure(n, out, side, b, inner).Some? then Fail(AtAMulBxFailure(n, out, side, b, inner).value) else Pass)
    ensures o.Fail? ==> unchanged(out) && unchanged(inner)
    ensures o.Pass? ==> AtAMulBxDone(n, out, side, reg, b, inner)
  {
    var failure := AtAMulBxFailure(n, out, side, b, inner);
    if failure.Some? {
      return Fail(failure.value);
    }
    var first := AMulBx(n, inner, side.m, b);
    assert first.Pass?;
    AddTransposedProduct(n, out, side.mt, reg, b, inner);
    o := Pass;
  }

  /** The second half of `AtA_mul_Bx<N>`: column `c` of `out` receives row
      `c` of the transposed storage dotted with the rows of `inner`, plus
      `reg` times column `c` of `B`. */
  method AddTransposedProduct(n: nat, out: array2<real>, mt: Sparse, reg: real, b: array2<real>, inner: array2<real>)
    requires mt.Wf() && n == out.Length0 && n <= b.Length0 && n <= inner.Length0
    requires mt.OuterSize() == out.Length1 && mt.OuterSize() <= b.Length1 && mt.innerSize <= inner.Length1
    requires out != b && out != inner
    modifies out
    ensures forall j, c :: 0 <= j < n && 0 <= c < mt.OuterSize() ==> out[j, c] == RowTimes(mt, c, inner, j) + reg * b[j, c]
  {
    for row := 0 to mt.OuterSize()
      invariant forall j, c :: 0 <= j < n && 0 <= c < row ==> out[j, c] == RowTimes(mt, c, inner, j) + reg * b[j, c]
    {
      var tmp := AccumulateRow(n, mt, inner, row);
      SetColumn(out, row, seq(n, j requires 0 <= j < n reads tmp, b => tmp[j] + reg * b[j, row]));
    }
  }

  /** What the sparse kernel computes is the operator of the normal
      equations: when `mt` is the transpose of `m`, row `j` of `out` is
      `(A' * A * B[j]')' + reg * B[j]`, the same value the dense overload
      computes for the dense matrix `A`. */
  lemma AtAIsGram(n: nat, out: array2<real>, side: SideInfo, reg: real, b: array2<real>, inner: array2<real>, j: nat, c: nat)
    requires side.Wf() && side.Transposed()
    requires n == out.Length0 == b.Length0 == inner.Length0
    requires side.Cols() == out.Length1 == b.Length1 && side.Rows() == inner.Length1
    requires AtAMulBxDone(n, out, side, reg, b, inner)
    requires j < n && c < side.Cols()
    ensures out[j, c] == GramEntry(DenseOf(side.m), RowOf(b, j), c) + reg * b[j, c]
  {
    assert out[j, c] == RowTimes(side.mt, c, inner, j) + reg * b[j, c];
    SparseGramEntry(n, side, b, inner, j, c);
  }

  /** Column `c` of `A` dotted with row `j` of `inner = (A * B')'`, walked
      through the transposed storage, is the dense Gram entry. */
  lemma SparseGramEntry(n: nat, side: SideInfo, b: array2<real>, inner: array2<real>, j: nat, c: nat)
    requires side.Wf() && side.Transposed()
    requires n == b.Length0 == inner.Length0 && side.Cols() == b.Length1 && side.Rows() == inner.Length1
    requires AMulBxDone(n, inner, side.m, b)
    requires j < n && c < side.Cols()
    ensures RowTimes(side.mt, c, inner, j) == GramEntry(DenseOf(side.m), RowOf(b, j), c)
  {
    var dm, v := DenseOf(side.m), RowOf(b, j);
    var col, prods := DenseOf(side.mt)[c], RowOf(inner, j);
    assert RowTimes(side.mt, c, inner, j) == VecDot(col, prods, side.Rows()) by {
      SparseRowIsDense(side.mt, c, inner, j);
    }
    assert col == Column(dm, c) by {
      TransposedRowIsColumn(side, c);
    }
    assert prods == Products(dm, v) by {
      InnerRowIsProducts(n, side.m, b, inner, j);
    }
  }

  /** Row `c` of the transposed storage is column `c` of the matrix. */
  lemma TransposedRowIsColumn(side: SideInfo, c: nat)
    requires side.Wf() && side.Transposed() && c < side.Cols()
    ensures DenseOf(side.mt)[c] == Column(DenseOf(side.m), c)
  {
  }

  /** Row `j` of `inner = (A * B')'` is `A` times row `j` of `B`. */
  lemma InnerRowIsProducts(n: nat, m: Sparse, b: array2<real>, inner: array2<real>, j: nat)
    requires m.Wf() && n <= inner.Length0 && m.OuterSize() == inner.Length1 && n <= b.Length0 && m.innerSize == b.Length1
    requires AMulBxDone(n, inner, m, b) && j < n
    ensures RowOf(inner, j) == Products(DenseOf(m), RowOf(b, j))
  {
    forall r | 0 <= r < m.OuterSize()
      ensures RowOf(inner, j)[r] == Products(DenseOf(m), RowOf(b, j))[r]
    {
      SparseRowIsDense(m, r, b, j);
    }
  }

  // ----------------------------------------------------- AtA_mul_B_switch

  const TooManyRhs: string := "BlockCG only available for up to 40 RHSs."

  /** `AtA_mul_B_switch` for sparse side information: dispatches on the
      number of rows of `B` to `AtA_mul_Bx<N>`, for `N` from 1 to 40; any
      other count is an error. */
  method AtAMulBSwitch(out: array2<real>, side: SideInfo, reg: real, b: array2<real>, tmp: array2<real>) returns (o: Outcome)
    requires side.Wf() && out != b && out != tmp && tmp != b
    modifies out, tmp
    ensures !(1 <= b.Length0 <= 40) ==> o == Fail(TooManyRhs) && unchanged(out) && unchanged(tmp)
    ensures 1 <= b.Length0 <= 40 ==>
      o == (if AtAMulBxFailure(b.Length0, out, side, b, tmp).Some? then Fail(AtAMulBxFailure(b.Length0, out, side, b, tmp).value) else Pass)
    ensures o.Fail? ==> unchanged(out) && unchanged(tmp)
    ensures o.Pass? ==> AtAMulBxDone(b.Length0, out, side, reg, b, tmp)
  {
    if 1 <= b.Length0 <= 40 {
      o := AtAMulBx(b.Length0, out, side, reg, b, tmp);
    } else {
      o := Fail(TooManyRhs);
    }
  }

  /** Row `j` of the dense `AtA_mul_B_switch` result when `v` is row `j` of
      `B`: `(A' * (A * v'))' + reg * v`. */
  function DenseRow(a: Mat, reg: real, v: seq<real>): (row: seq<real>)
    requires Shaped(a, |v|)
    ensures |row| == |v| && forall c :: 0 <= c < |v| ==> row[c] == GramEntry(a, v, c) + reg * v[c]
  {
    seq(|v|, c requires 0 <= c < |v| => GramEntry(a, v, c) + reg * v[c])
  }

  /** `AtA_mul_B_switch` for a dense `A`: the assignment gives `out` the
      shape of `B`, whatever its shape before (here a fresh array), and the
      value `(A' * (A * B'))' + reg * B`, computed row by row of `B`. */
  method AtAMulBDense(a: array2<real>, reg: real, b: array2<real>) returns (out: array2<real>)
    requires a.Length1 == b.Length1
    ensures fresh(out) && out.Length0 == b.Length0 && out.Length1 == b.Length1
    ensures forall j, c :: 0 <= j < b.Length0 && 0 <= c < b.Length1 ==>
      out[j, c] == GramEntry(MatOf(a), RowOf(b, j), c) + reg * b[j, c]
  {
    out := new real[b.Length0, b.Length1];
    var am, bm := MatOf(a), MatOf(b);
    assert Shaped(am, b.Length1) && Shaped(bm, b.Length1);
    FillRows(out, am, reg, bm);
    forall j, c | 0 <= j < b.Length0 && 0 <= c < b.Length1
      ensures out[j, c] == GramEntry(MatOf(a), RowOf(b, j), c) + reg * b[j, c]
    {
      assert MatOf(a) == am && RowOf(b, j) == bm[j];
    }
  }

  /** The row loop of the dense `AtA_mul_B_switch`: row `j` of `out` becomes
      `DenseRow` of row `j` of `B`. */
  method FillRows(out: array2<real>, a: Mat, reg: real, b: Mat)
    requires out.Length0 == |b| && Shaped(b, out.Length1) && Shaped(a, out.Length1)
    modifies out
    ensures forall j, c :: 0 <= j < |b| && 0 <= c < out.Length1 ==> out[j, c] == DenseRow(a, reg, b[j])[c]
  {
    for j := 0 to |b|
      invariant forall t, c :: 0 <= t < j && 0 <= c < out.Length1 ==> out[t, c] == DenseRow(a, reg, b[t])[c]
    {
      SetRow(out, j, DenseRow(a, reg, b[j]));
    }
  }

  // ------------------------------------------------------ small dense kernels

  /** `At_mul_Bt`: `Y = (X[:, col])' * B'`; entry `row` of `Y` is column
      `col` of `X` dotted with row `row` of `B`; the rest of `Y` is zeroed. */
  method AtMulBt(y: array<real>, x: array2<real>, col: nat, b: array2<real>)
    requires b.Length0 <= y.Length && x.Length0 == b.Length1 && col < x.Length1
    modifies y
    ensures forall row :: 0 <= row < b.Length0 ==> y[row] == VecDot(ColOf(x, col), RowOf(b, row), x.Length0)
    ensures forall row :: b.Length0 <= row < y.Length ==> y[row] == 0.0
  {
    for i := 0 to y.Length
      invariant forall t :: 0 <= t < i ==> y[t] == 0.0
    {
      y[i] := 0.0;
    }
    var xc := ColOf(x, col);
    for row := 0 to b.Length0
      invariant forall t :: 0 <= t < row ==> y[t] == VecDot(xc, RowOf(b, t), x.Length0)
      invariant forall t :: row <= t < y.Length ==> y[t] == 0.0
    {
      y[row] := VecDot(xc, RowOf(b, row), x.Length0);
    }
  }

  /** `add_Acol_mul_bt`: `Z += A[:, col] * b'`; row `row < |b|` of `Z` gains
      `b[row]` times column `col` of `A`, and every other row is kept. */
  method AddAcolMulBt(z: array2<real>, a: array2<real>, col: nat, b: array<real>)
    requires b.Length <= z.Length0 && z.Length1 == a.Length0 && col < a.Length1
    requires z != a
    modifies z
    ensures forall row, k :: 0 <= row < b.Length && 0 <= k < z.Length1 ==> z[row, k] == old(z[row, k]) + a[k, col] * b[row]
    ensures forall row, k :: b.Length <= row < z.Length0 && 0 <= k < z.Length1 ==> z[row, k] == old(z[row, k])
  {
    for row := 0 to b.Length
      invariant forall r, k :: 0 <= r < row && 0 <= k < z.Length1 ==> z[r, k] == old(z[r, k]) + a[k, col] * b[r]
      invariant forall r, k :: row <= r < z.Length0 && 0 <= k < z.Length1 ==> z[r, k] == old(z[r, k])
    {
      for k := 0 to z.Length1
        invariant forall r, q :: 0 <= r < row && 0 <= q < z.Length1 ==> z[r, q] == old(z[r, q]) + a[q, col] * b[r]
        invariant forall q :: 0 <= q < k ==> z[row, q] == old(z[row, q]) + a[q, col] * b[row]
        invariant forall r, q :: 0 <= r < z.Length0 && 0 <= q < z.Length1 && (r > row || (r == row && q >= k)) ==> z[r, q] == old(z[r, q])
      {
        z[row, k] := z[row, k] + a[k, col] * b[row];
      }
    }
  }

  // ------------------------------------------------------------ A_mul_B_omp

  /** `(int)ceil(ncol / 64.0)`: the number of 64-column tiles. */
  function TileCount(ncol: nat): nat
  {
    (ncol + 63) / 64
  }

  /** The width of tile `block`: 64, or what is left of the last one. */
  function TileWidth(ncol: nat, block: nat): int
  {
    Min(64, ncol - 64 * block)
  }

  /** The tiles partition the columns: column `c` lies in tile `c / 64` and
      in no other tile, and every tile is non-empty. */
  lemma TilesPartitionColumns(ncol: nat, c: nat)
    requires c < ncol
    ensures c / 64 < TileCount(ncol)
    ensures 64 * (c / 64) <= c < 64 * (c / 64) + TileWidth(ncol, c / 64)
    ensures forall block :: 0 <= block < TileCount(ncol) && 64 * block <= c < 64 * block + TileWidth(ncol, block) ==> block == c / 64
    ensures forall block :: 0 <= block < TileCount(ncol) ==> 1 <= TileWidth(ncol, block)
  {
  }

  /** Entry `(r, c)` of `A * B`, taking the first `A.cols()` rows of `B`. */
  ghost function ProductEntry(a: array2<real>, b: array2<real>, r: nat, c: nat): real
    requires r < a.Length0 && c < b.Length1 && a.Length1 <= b.Length0
    reads a, b
  {
    VecDot(RowOf(a, r), ColOf(b, c), a.Length1)
  }

  /** One tile: columns `col .. col + bcols` of `out` become
      `alpha * out + beta * A * B` over those columns. */
  method UpdateTile(alpha: real, out: array2<real>, beta: real, a: array2<real>, b: array2<real>, col: nat, bcols: nat)
    requires a.Length0 == out.Length0 && a.Length1 == out.Length0 && out.Length0 <= b.Length0 && out.Length1 == b.Length1
    requires col + bcols <= out.Length1 && out != a && out != b
    modifies out
    ensures forall r, c :: 0 <= r < out.Length0 && col <= c < col + bcols ==>
      out[r, c] == alpha * old(out[r, c]) + beta * ProductEntry(a, b, r, c)
    ensures forall r, c :: 0 <= r < out.Length0 && 0 <= c < out.Length1 && !(col <= c < col + bcols) ==> out[r, c] == old(out[r, c])
  {
    for c := col to col + bcols
      invariant forall r, k :: 0 <= r < out.Length0 && col <= k < c ==> out[r, k] == alpha * old(out[r, k]) + beta * ProductEntry(a, b, r, k)
      invariant forall r, k :: 0 <= r < out.Length0 && 0 <= k < out.Length1 && !(col <= k < c) ==> out[r, k] == old(out[r, k])
    {
      var updated := seq(out.Length0, r requires 0 <= r < out.Length0 reads out, a, b =>
        alpha * out[r, c] + beta * VecDot(RowOf(a, r), ColOf(b, c), a.Length1));
      SetColumn(out, c, updated);
    }
  }

  /** `A_mul_B_omp`: `out = alpha * out + beta * A * B`, one 64-column tile
      at a time; `out` and `B` must have the same number of columns. */
  method AMulBOmp(alpha: real, out: array2<real>, beta: real, a: array2<real>, b: array2<real>) returns (o: Outcome)
    requires a.Length0 == out.Length0 && a.Length1 == out.Length0 && out.Length0 <= b.Length0
    requires out != a && out != b
    modifies out
    ensures o.Fail? <==> out.Length1 != b.Length1
    ensures o.Fail? ==> o.msg == "out.cols() == B.cols()" && unchanged(out)
    ensures o.Pass? ==> forall r, c :: 0 <= r < out.Length0 && 0 <= c < out.Length1 ==>
      out[r, c] == alpha * old(out[r, c]) + beta * ProductEntry(a, b, r, c)
  {
    if out.Length1 != b.Length1 {
      return Fail("out.cols() == B.cols()");
    }
    var ncol := out.Length1;
    var nblocks := TileCount(ncol);
    for block := 0 to nblocks
      invariant forall r, c :: 0 <= r < out.Length0 && 0 <= c < Min(64 * block, ncol) ==>
        out[r, c] == alpha * old(out[r, c]) + beta * ProductEntry(a, b, r, c)
      invariant forall r, c :: 0 <= r < out.Length0 && Min(64 * block, ncol) <= c < ncol ==> out[r, c] == old(out[r, c])
    {
      var col := block * 64;
      var bcols := Min(64, ncol - col);
      UpdateTile(alpha, out, beta, a, b, col, bcols);
    }
    o := Pass;
  }
}
