/** The latent model of a factorisation: one factor matrix `U(d)` per mode of
    the training data, each with `num_latent` rows and one column per index of
    that mode. Matrices are `array2<real>` indexed `[row, column]`; Eigen's
    column-major layout plays no part here. */
module LatentModel {
  import opened Errors

  /** `ModelInitTypes`: the enumerators the library knows, and any other value
      an integer cast can put into the enum. */
  datatype InitType = Random | Zero | Unknown(code: int)

  const InvalidInitType: string := "Invalid model init type"

  /** Conversion of a signed index to `std::uint32_t`. */
  const U32Modulus: int := 0x1_0000_0000

  /** Every stored entry of `m` is zero. */
  ghost predicate AllZero(m: array2<real>)
    reads m
  {
    forall i, j :: 0 <= i < m.Length0 && 0 <= j < m.Length1 ==> m[i, j] == 0.0
  }

  /** The rows of `m`, as a value (what `write_matrix` stores and
      `read_matrix` loads back). */
  function Snapshot(m: array2<real>): (s: seq<seq<real>>)
    reads m
    ensures |s| == m.Length0
    ensures forall i :: 0 <= i < m.Length0 ==> |s[i]| == m.Length1
    ensures forall i, j :: 0 <= i < m.Length0 && 0 <= j < m.Length1 ==> s[i][j] == m[i, j]
  {
    seq(m.Length0, i reads m => seq(m.Length1, j reads m => if 0 <= i < m.Length0 && 0 <= j < m.Length1 then m[i, j] else 0.0))
  }

  function Snapshots(us: seq<array2<real>>): (s: seq<seq<seq<real>>>)
    reads us
    ensures |s| == |us|
    ensures forall d :: 0 <= d < |us| ==> s[d] == Snapshot(us[d])
  {
    if |us| == 0 then [] else Snapshots(us[..|us| - 1]) + [Snapshot(us[|us| - 1])]
  }

  // ---------------------------------------------------------------- predict

  /** The product over modes `d < m` of `U(d)[k, pos[d]]`. */
  ghost function ModeProduct(us: seq<array2<real>>, pos: seq<int>, k: nat, m: nat): real
    requires m <= |us| && m <= |pos|
    requires forall d :: 0 <= d < m ==> k < us[d].Length0 && 0 <= pos[d] < us[d].Length1
    reads us
    decreases m
  {
    if m == 0 then 1.0 else ModeProduct(us, pos, k, m - 1) * us[m - 1][k, pos[m - 1]]
  }

  /** The sum over latent rows `k < n` of the product over all modes. */
  ghost function Prediction(us: seq<array2<real>>, pos: seq<int>, n: nat): real
    requires |us| <= |pos|
    requires forall d :: 0 <= d < |us| ==> n <= us[d].Length0 && 0 <= pos[d] < us[d].Length1
    reads us
    decreases n
  {
    if n == 0 then 0.0 else Prediction(us, pos, n - 1) + ModeProduct(us, pos, n - 1, |us|)
  }

  /** Once a factor that is all zeros takes part, every product is zero. */
  lemma {:induction false} ZeroFactorKillsProduct(us: seq<array2<real>>, pos: seq<int>, k: nat, m: nat, f: nat)
    requires f < m <= |us| && m <= |pos|
    requires forall d :: 0 <= d < m ==> k < us[d].Length0 && 0 <= pos[d] < us[d].Length1
    requires AllZero(us[f])
    ensures ModeProduct(us, pos, k, m) == 0.0
    decreases m
  {
    if f < m - 1 {
      ZeroFactorKillsProduct(us, pos, k, m - 1, f);
    } else {
      assert us[m - 1][k, pos[m - 1]] == 0.0;
    }
  }

  /** A model one of whose factors is all zeros predicts zero everywhere. */
  lemma {:induction false} ZeroFactorPredictsZero(us: seq<array2<real>>, pos: seq<int>, n: nat, f: nat)
    requires f < |us| <= |pos|
    requires forall d :: 0 <= d < |us| ==> n <= us[d].Length0 && 0 <= pos[d] < us[d].Length1
    requires AllZero(us[f])
    ensures Prediction(us, pos, n) == 0.0
    decreases n
  {
    if n > 0 {
      ZeroFactorPredictsZero(us, pos, n - 1, f);
      ZeroFactorKillsProduct(us, pos, n - 1, |us|, f);
    }
  }

  /** A model without modes multiplies nothing: each latent row contributes 1. */
  lemma {:induction false} NoModesPredictsLatentCount(us: seq<array2<real>>, pos: seq<int>, n: nat)
    requires |us| == 0
    ensures Prediction(us, pos, n) == n as real
    decreases n
  {
    if n > 0 {
      NoModesPredictsLatentCount(us, pos, n - 1);
    }
  }

  // --------------------------------------------------------------- nsamples

  /** Left fold of the column counts, as `std::accumulate` does it. */
  function ColumnCount(us: seq<array2<real>>): nat
  {
    if |us| == 0 then 0 else ColumnCount(us[..|us| - 1]) + us[|us| - 1].Length1
  }

  /** The sum of the mode sizes. */
  function SumDims(dims: seq<nat>): nat
  {
    if |dims| == 0 then 0 else dims[0] + SumDims(dims[1..])
  }

  lemma {:induction false} SumDimsSnoc(dims: seq<nat>, x: nat)
    ensures SumDims(dims + [x]) == SumDims(dims) + x
    decreases |dims|
  {
    if |dims| > 0 {
      assert (dims + [x])[1..] == dims[1..] + [x];
      SumDimsSnoc(dims[1..], x);
    } else {
      assert dims + [x] == [x];
    }
  }

  /** The column counts of factors shaped after `dims` add up to the sum of
      `dims`. */
  lemma {:induction false} ColumnCountIsSumDims(us: seq<array2<real>>, dims: seq<nat>)
    requires |us| == |dims|
    requires forall d :: 0 <= d < |us| ==> us[d].Length1 == dims[d]
    ensures ColumnCount(us) == SumDims(dims)
    decreases |us|
  {
    if |us| > 0 {
      var n := |us| - 1;
      ColumnCountIsSumDims(us[..n], dims[..n]);
      SumDimsSnoc(dims[..n], dims[n]);
      assert dims[..n] + [dims[n]] == dims;
    }
  }

  // ------------------------------------------------------------- file names

  function DigitChar(d: nat): char
    requires d < 10
  {
    "0123456789"[d]
  }

  predicate IsDigit(c: char)
  {
    '0' <= c <= '9'
  }

  /** Decimal digits of `n` without leading zeros (a single `0` for zero). */
  function Digits(n: nat): (s: string)
    ensures 1 <= |s|
    ensures forall i :: 0 <= i < |s| ==> IsDigit(s[i])
    decreases n
  {
    if n < 10 then [DigitChar(n)] else Digits(n / 10) + [DigitChar(n % 10)]
  }

  function DigitValue(c: char): nat
    requires IsDigit(c)
  {
    c as int - '0' as int
  }

  /** Value of a string of decimal digits. */
  function ParseDigits(s: string): nat
    requires forall i :: 0 <= i < |s| ==> IsDigit(s[i])
    decreases |s|
  {
    if |s| == 0 then 0 else ParseDigits(s[..|s| - 1]) * 10 + DigitValue(s[|s| - 1])
  }

  lemma {:induction false} ParseDigitsOfDigits(n: nat)
    ensures ParseDigits(Digits(n)) == n
    decreases n
  {
    var s := Digits(n);
    if n >= 10 {
      ParseDigitsOfDigits(n / 10);
      assert s[..|s| - 1] == Digits(n / 10);
    }
  }

  /** `std::to_string` of a signed integer. */
  function ToString(i: int): string
  {
    if i < 0 then "-" + Digits(-i) else Digits(i)
  }

  /** Digit strings are read back as the number they print. */
  lemma DigitsInjective(a: nat, b: nat)
    ensures Digits(a) == Digits(b) ==> a == b
  {
    ParseDigitsOfDigits(a);
    ParseDigitsOfDigits(b);
  }

  /** A printed integer starts with a minus sign exactly when it is negative. */
  lemma ToStringSign(i: int)
    ensures 1 <= |ToString(i)| && (ToString(i)[0] == '-' <==> i < 0)
  {
    if i >= 0 {
      assert IsDigit(Digits(i)[0]);
    }
  }

  lemma DropSign(i: int)
    requires i < 0
    ensures ToString(i)[1..] == Digits(-i)
  {
  }

  /** Different integers print differently. */
  lemma ToStringInjective(i: int, j: int)
    ensures ToString(i) == ToString(j) <==> i == j
  {
    if ToString(i) == ToString(j) {
      ToStringSign(i);
      ToStringSign(j);
      assert i < 0 <==> j < 0;
      if i < 0 {
        DropSign(i);
        DropSign(j);
        DigitsInjective(-i, -j);
      } else {
        DigitsInjective(i, j);
      }
    }
  }

  /** `Model::getModelFileName`: the file that holds factor `index`. */
  function ModelFileName(prefix: string, extension: string, index: int): string
  {
    prefix + "-U" + ToString(index) + "-latents" + extension
  }

  /** File names of different factors never collide, whatever the prefix and
      extension. */
  lemma ModelFileNameInjective(prefix: string, extension: string, i: int, j: int)
    ensures ModelFileName(prefix, extension, i) == ModelFileName(prefix, extension, j) <==> i == j
  {
    var a, b := ModelFileName(prefix, extension, i), ModelFileName(prefix, extension, j);
    if a == b {
      var lo := |prefix| + 2;
      assert |ToString(i)| == |ToString(j)|;
      assert a[lo..lo + |ToString(i)|] == ToString(i);
      assert b[lo..lo + |ToString(j)|] == ToString(j);
      ToStringInjective(i, j);
    }
  }

  /** The names `save` produces for `n` factors, in mode order. */
  function SavedNames(prefix: string, extension: string, n: nat): (names: seq<string>)
    ensures |names| == n
    ensures forall i :: 0 <= i < n ==> names[i] == ModelFileName(prefix, extension, i)
  {
    seq(n, i => ModelFileName(prefix, extension, i))
  }

  // ------------------------------------------------------------------ model

  class Model {
    var numLatent: int
    var dims: seq<nat>
    var samples: seq<array2<real>>

    /** After `init` from an empty model: one factor per mode, `num_latent`
        rows each, as many columns as the mode has indices, no two sharing
        storage. */
    ghost predicate Valid()
      reads this
    {
      && 0 <= numLatent
      && |samples| == |dims|
      && (forall d :: 0 <= d < |samples| ==> samples[d].Length0 == numLatent && samples[d].Length1 == dims[d])
      && (forall d, e :: 0 <= d < e < |samples| ==> samples[d] != samples[e])
    }

    /** `Model()`: no factors yet, `num_latent` set to -1. */
    constructor ()
      ensures numLatent == -1 && dims == [] && samples == []
    {
      numLatent := -1;
      dims := [];
      samples := [];
    }

    /** `Model::init`: records the sizes, then appends one fresh
        `num_latent x dims[i]` factor per mode. Random factors hold unspecified
        values (the generator is not modelled); zero factors are all zeros; any
        other init type fails before the first factor is appended. */
    method Init(numLatent: int, dims: seq<nat>, initType: InitType) returns (o: Outcome)
      requires 0 <= numLatent
      modifies this
      ensures this.numLatent == numLatent && this.dims == dims
      ensures o.Fail? <==> initType.Unknown? && |dims| > 0
      ensures o.Fail? ==> o.msg == InvalidInitType && samples == old(samples)
      ensures o.Pass? ==> |samples| == |old(samples)| + |dims| && samples[..|old(samples)|] == old(samples)
      ensures o.Pass? ==> forall i :: |old(samples)| <= i < |samples| ==>
        && fresh(samples[i])
        && samples[i].Length0 == numLatent
        && samples[i].Length1 == dims[i - |old(samples)|]
        && (initType.Zero? ==> AllZero(samples[i]))
      ensures o.Pass? ==> forall i, j :: |old(samples)| <= i < j < |samples| ==> samples[i] != samples[j]
      ensures o.Pass? && old(samples) == [] ==> Valid()
    {
      this.numLatent := numLatent;
      this.dims := dims;
      ghost var start := |samples|;
      for i := 0 to |dims|
        invariant this.numLatent == numLatent && this.dims == dims
        invariant |samples| == start + i && samples[..start] == old(samples)
        invariant forall t :: start <= t < |samples| ==>
          && fresh(samples[t])
          && samples[t].Length0 == numLatent
          && samples[t].Length1 == dims[t - start]
          && (initType.Zero? ==> AllZero(samples[t]))
        invariant forall t, u :: start <= t < u < |samples| ==> samples[t] != samples[u]
        invariant initType.Unknown? ==> i == 0 && samples == old(samples)
      {
        var sample: array2<real>;
        match initType {
          case Random =>
            sample := new real[numLatent, dims[i]];
          case Zero =>
            sample := new real[numLatent, dims[i]]((_, _) => 0.0);
          case Unknown(_) =>
            return Fail(InvalidInitType);
        }
        samples := samples + [sample];
      }
      o := Pass;
    }

    /** `Model::U`: the factor of mode `f`; `at` rejects a mode the model does
        not have. */
    function U(f: nat): (r: Result<array2<real>>)
      reads this
      ensures r.Ok? <==> f < |samples|
      ensures r.Ok? ==> r.value == samples[f]
      ensures r.Err? ==> r.msg == OutOfRange
    {
      if f < |samples| then Ok(samples[f]) else Err(OutOfRange)
    }

    /** `Model::col`: column `i` of factor `f`, where the signed mode index is
        converted to `std::uint32_t` on the way to `U`. */
    function Col(f: int, i: int): (r: Result<seq<real>>)
      requires f % U32Modulus < |samples| ==> 0 <= i < samples[f % U32Modulus].Length1
      reads this, samples
      ensures r.Ok? <==> f % U32Modulus < |samples|
      ensures r.Ok? ==> |r.value| == samples[f % U32Modulus].Length0
      ensures r.Ok? ==> forall k :: 0 <= k < |r.value| ==> r.value[k] == samples[f % U32Modulus][k, i]
    {
      match U(f % U32Modulus)
      case Err(msg) => Err(msg)
      case Ok(m) => Ok(seq(m.Length0, k reads m => if 0 <= k < m.Length0 then m[k, i] else 0.0))
    }

    /** `Model::nmodes`. */
    function NModes(): nat
      reads this
    {
      |samples|
    }

    /** `Model::nsamples`: the column counts of all factors, added up. */
    function NSamples(): nat
      reads this
    {
      ColumnCount(samples)
    }

    /** `Model::predict`: `P` starts as all ones, is multiplied entrywise by
        column `pos[d]` of each factor in mode order, then summed. `pos.at(d)`
        fails when `pos` names fewer indices than the model has modes. */
    method Predict(pos: seq<int>) returns (r: Result<real>)
      requires 0 <= numLatent
      requires forall d :: 0 <= d < |samples| ==> samples[d].Length0 == numLatent
      requires forall d :: 0 <= d < |samples| && d < |pos| ==> 0 <= pos[d] < samples[d].Length1
      ensures r.Err? <==> |pos| < |samples|
      ensures r.Err? ==> r.msg == OutOfRange
      ensures r.Ok? ==> r.value == Prediction(samples, pos, numLatent)
    {
      var p := new real[numLatent](_ => 1.0);
      for d := 0 to |samples|
        invariant d <= |pos|
        invariant forall k :: 0 <= k < numLatent ==> p[k] == ModeProduct(samples, pos, k, d)
      {
        if d >= |pos| {
          return Err(OutOfRange);
        }
        var u := samples[d];
        for k := 0 to numLatent
          invariant forall t :: 0 <= t < k ==> p[t] == ModeProduct(samples, pos, t, d + 1)
          invariant forall t :: k <= t < numLatent ==> p[t] == ModeProduct(samples, pos, t, d)
        {
          p[k] := p[k] * u[k, pos[d]];
        }
      }
      var sum := 0.0;
      for k := 0 to numLatent
        invariant sum == Prediction(samples, pos, k)
      {
        sum := sum + p[k];
      }
      r := Ok(sum);
    }

    /** `Model::save`: writes factor `i` to the file named for index `i`, in
        mode order, and appends each name to `paths`. The file system is the
        map `files` from names to stored matrices: afterwards each factor's
        file holds that factor and every other file is as it was. */
    method Save(prefix: string, extension: string, paths: seq<string>, files: map<string, seq<seq<real>>>)
      returns (paths': seq<string>, files': map<string, seq<seq<real>>>)
      ensures paths' == paths + SavedNames(prefix, extension, |samples|)
      ensures forall d :: 0 <= d < |samples| ==>
        ModelFileName(prefix, extension, d) in files' && files'[ModelFileName(prefix, extension, d)] == Snapshot(samples[d])
      ensures forall name :: name !in SavedNames(prefix, extension, |samples|) ==>
        (name in files' <==> name in files) && (name in files ==> files'[name] == files[name])
    {
      paths', files' := paths, files;
      var i := 0;
      for d := 0 to |samples|
        invariant i == d
        invariant paths' == paths + SavedNames(prefix, extension, d)
        invariant forall e :: 0 <= e < d ==>
          ModelFileName(prefix, extension, e) in files' && files'[ModelFileName(prefix, extension, e)] == Snapshot(samples[e])
        invariant forall name :: name !in SavedNames(prefix, extension, d) ==>
          (name in files' <==> name in files) && (name in files ==> files'[name] == files[name])
      {
        var path := ModelFileName(prefix, extension, i);
        i := i + 1;
        forall e | 0 <= e < d
          ensures ModelFileName(prefix, extension, e) != path
        {
          ModelFileNameInjective(prefix, extension, e, d);
        }
        files' := files'[path := Snapshot(samples[d])];
        paths' := paths' + [path];
        assert SavedNames(prefix, extension, d + 1) == SavedNames(prefix, extension, d) + [path];
      }
    }

    /** `Model::restore`: loads factor `i` from the file named for index `i`,
        the same name `save` used. Every file read must be present and hold a
        matrix of the factor's shape. */
    method Restore(prefix: string, extension: string, files: map<string, seq<seq<real>>>)
      requires forall d, e :: 0 <= d < e < |samples| ==> samples[d] != samples[e]
      requires forall d :: 0 <= d < |samples| ==>
        && ModelFileName(prefix, extension, d) in files
        && |files[ModelFileName(prefix, extension, d)]| == samples[d].Length0
        && (forall row :: 0 <= row < samples[d].Length0 ==> |files[ModelFileName(prefix, extension, d)][row]| == samples[d].Length1)
      modifies set d | 0 <= d < |samples| :: samples[d]
      ensures forall d :: 0 <= d < |samples| ==> Snapshot(samples[d]) == files[ModelFileName(prefix, extension, d)]
    {
      var i := 0;
      for d := 0 to |samples|
        invariant i == d
        invariant forall e :: 0 <= e < d ==> Snapshot(samples[e]) == files[ModelFileName(prefix, extension, e)]
      {
        var name := prefix + "-U" + ToString(i) + "-latents" + extension;
        assert name == ModelFileName(prefix, extension, d);
        var stored := files[name];
        i := i + 1;
        ReadMatrix(stored, samples[d]);
        forall e | 0 <= e < d
          ensures Snapshot(samples[e]) == files[ModelFileName(prefix, extension, e)]
        {
          assert samples[e] != samples[d];
        }
      }
    }

    /** Saving and then restoring under the same prefix and extension gives
        every factor back unchanged, and `save` reports the names `restore`
        reads. */
    method SaveThenRestore(prefix: string, extension: string, files: map<string, seq<seq<real>>>)
      returns (paths: seq<string>)
      requires forall d, e :: 0 <= d < e < |samples| ==> samples[d] != samples[e]
      modifies set d | 0 <= d < |samples| :: samples[d]
      ensures paths == SavedNames(prefix, extension, |samples|)
      ensures forall d :: 0 <= d < |samples| ==> Snapshot(samples[d]) == old(Snapshot(samples[d]))
    {
      var files';
      paths, files' := Save(prefix, extension, [], files);
      Restore(prefix, extension, files');
    }
  }

  /** Copies a stored matrix of the right shape into `m`. */
  method ReadMatrix(stored: seq<seq<real>>, m: array2<real>)
    requires |stored| == m.Length0
    requires forall row :: 0 <= row < |stored| ==> |stored[row]| == m.Length1
    modifies m
    ensures Snapshot(m) == stored
  {
    for i := 0 to m.Length0
      invariant forall a, b :: 0 <= a < i && 0 <= b < m.Length1 ==> m[a, b] == stored[a][b]
    {
      for j := 0 to m.Length1
        invariant forall a, b :: 0 <= a < i && 0 <= b < m.Length1 ==> m[a, b] == stored[a][b]
        invariant forall b :: 0 <= b < j ==> m[i, b] == stored[i][b]
      {
        m[i, j] := stored[i][j];
      }
    }
    forall i | 0 <= i < m.Length0
      ensures Snapshot(m)[i] == stored[i]
    {
      assert forall j :: 0 <= j < m.Length1 ==> Snapshot(m)[i][j] == stored[i][j];
    }
  }

  // --------------------------------------------------------------- submodel

  /** A block expression: `rows x cols` entries of `factor`, starting at row
      `firstRow` and column `firstCol`. */
  datatype Window = Window(factor: array2<real>, firstRow: nat, firstCol: nat, rows: nat, cols: nat)
  {
    predicate Inside()
    {
      firstRow + rows <= factor.Length0 && firstCol + cols <= factor.Length1
    }

    /** Entry `(i, j)` of the block. */
    function Get(i: nat, j: nat): real
      requires Inside() && i < rows && j < cols
      reads factor
    {
      factor[firstRow + i, firstCol + j]
    }
  }

  /** `SubModel`: a view of a model restricted, per mode `f`, to the columns
      `off[f] .. off[f] + dims[f]` of its factor. */
  datatype SubModel = SubModel(model: Model, off: seq<int>, dims: seq<int>)
  {
    /** `SubModel::U`: every `at` lookup rejects a mode outside the model or
        the view; otherwise the block of all `num_latent` rows and the view's
        columns. Eigen requires the block to lie inside the factor. */
    function U(f: int): (r: Result<Window>)
      requires 0 <= f < |model.samples| && f < |off| && f < |dims| ==>
        && 0 <= model.numLatent <= model.samples[f].Length0
        && 0 <= off[f] && 0 <= dims[f] && off[f] + dims[f] <= model.samples[f].Length1
      reads model
      ensures r.Ok? <==> 0 <= f < |model.samples| && f < |off| && f < |dims|
      ensures r.Err? ==> r.msg == OutOfRange
      ensures r.Ok? ==> r.value.Inside() && r.value.factor == model.samples[f]
      ensures r.Ok? ==> r.value.rows == model.numLatent && r.value.cols == dims[f]
      ensures r.Ok? ==> forall i, j :: 0 <= i < model.numLatent && 0 <= j < dims[f] ==>
        r.value.Get(i, j) == model.samples[f][i, off[f] + j]
    {
      if 0 <= f < |model.samples| && f < |off| && f < |dims| then
        Ok(Window(model.samples[f], 0, off[f], model.numLatent, dims[f]))
      else
        Err(OutOfRange)
    }
  }

  /** `nsamples` of an initialised model is the total number of indices over
      all modes. */
  lemma NSamplesIsSumOfDims(m: Model)
    requires m.Valid()
    ensures m.NSamples() == SumDims(m.dims)
  {
    ColumnCountIsSumDims(m.samples, m.dims);
  }

  /** A view that starts at column 0 and spans all columns shows the whole
      factor, entry for entry. */
  lemma FullViewIsWholeFactor(s: SubModel, f: int)
    requires 0 <= f < |s.model.samples| && f < |s.off| && f < |s.dims|
    requires 0 <= s.model.numLatent == s.model.samples[f].Length0
    requires s.off[f] == 0 && s.dims[f] == s.model.samples[f].Length1
    ensures s.U(f).Ok?
    ensures s.U(f).value.rows == s.model.samples[f].Length0 && s.U(f).value.cols == s.model.samples[f].Length1
    ensures forall i, j :: 0 <= i < s.model.samples[f].Length0 && 0 <= j < s.model.samples[f].Length1 ==>
      s.U(f).value.Get(i, j) == s.model.samples[f][i, j]
  {
  }

  /** Zero initialisation of a model with at least one mode makes every
      prediction zero. */
  lemma ZeroInitPredictsZero(m: Model, pos: seq<int>)
    requires m.Valid() && |m.samples| >= 1 && |m.samples| <= |pos|
    requires forall d :: 0 <= d < |m.samples| ==> AllZero(m.samples[d])
    requires forall d :: 0 <= d < |m.samples| ==> 0 <= pos[d] < m.samples[d].Length1
    ensures Prediction(m.samples, pos, m.numLatent) == 0.0
  {
    ZeroFactorPredictsZero(m.samples, pos, m.numLatent, 0);
  }
}
