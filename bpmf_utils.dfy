/** The small numeric and combinatorial helpers of the BPMF/Macau code:
    clamping, squaring, the extrema of a sparse matrix, the split of latent
    dimensions over compute nodes, and the ranking and cumulative counting
    behind the AUC score. Doubles are modelled as exact reals. */
module BpmfUtils {
  import opened Compressed

  // ---------------------------------------------------------------------
  // clamp, square

  function Dist(a: real, b: real): real
  {
    if a <= b then b - a else a - b
  }

  /** `x` forced into `[lo, hi]`: `lo` below it, `hi` above it, `x` itself
      inside; when the interval is not empty the result is the point of the
      interval nearest to `x`. */
  function Clamp(x: real, lo: real, hi: real): (r: real)
    ensures x < lo ==> r == lo
    ensures lo <= x && hi < x ==> r == hi
    ensures lo <= x <= hi ==> r == x
    ensures lo <= hi ==> lo <= r <= hi && forall y :: lo <= y <= hi ==> Dist(r, x) <= Dist(y, x)
  {
    if x < lo then lo else if x > hi then hi else x
  }

  /** `x * x`, never negative. */
  function Square(x: real): (r: real)
    ensures 0.0 <= r
  {
    x * x
  }

  // ---------------------------------------------------------------------
  // getMinMax

  /** A double that may be one of the two infinities the code starts from. */
  datatype Ext = NegInf | Fin(v: real) | PosInf

  predicate Less(a: Ext, b: Ext)
  {
    match (a, b)
    case (NegInf, NegInf) => false
    case (NegInf, _) => true
    case (Fin(x), Fin(y)) => x < y
    case (Fin(_), PosInf) => true
    case _ => false
  }

  /** `lo` and `hi` are the smallest and the largest element of `s`, both
      attained; for an empty `s` they are +infinity and -infinity. */
  ghost predicate Extrema(lo: Ext, hi: Ext, s: seq<real>)
  {
    && (|s| == 0 ==> lo == PosInf && hi == NegInf)
    && (|s| > 0 ==>
          && lo.Fin? && hi.Fin?
          && (exists i :: 0 <= i < |s| && s[i] == lo.v)
          && (exists j :: 0 <= j < |s| && s[j] == hi.v)
          && (forall i :: 0 <= i < |s| ==> lo.v <= s[i] <= hi.v))
  }

  /** The least and the greatest stored value of a sparse matrix, visiting the
      stored entries outer vector by outer vector. */
  method GetMinMax(mat: Sparse) returns (lo: Ext, hi: Ext)
    requires mat.Wf()
    ensures Extrema(lo, hi, mat.vals)
  {
    lo, hi := PosInf, NegInf;
    for k := 0 to mat.OuterSize()
      invariant Extrema(lo, hi, mat.vals[..mat.outer[k]])
    {
      assert mat.outer[k] <= mat.outer[k + 1];
      for p := mat.outer[k] to mat.outer[k + 1]
        invariant Extrema(lo, hi, mat.vals[..p])
      {
        var v := mat.vals[p];
        assert mat.vals[..p + 1] == mat.vals[..p] + [v];
        ExtremaExtend(lo, hi, mat.vals[..p], v);
        if Less(Fin(v), lo) {
          lo := Fin(v);
        }
        if Less(hi, Fin(v)) {
          hi := Fin(v);
        }
      }
    }
    assert mat.vals[..mat.outer[mat.OuterSize()]] == mat.vals;
  }

  /** One more value: it replaces the minimum when it is below it and the
      maximum when it is above it. */
  lemma ExtremaExtend(lo: Ext, hi: Ext, s: seq<real>, v: real)
    requires Extrema(lo, hi, s)
    ensures Extrema(if Less(Fin(v), lo) then Fin(v) else lo, if Less(hi, Fin(v)) then Fin(v) else hi, s + [v])
  {
    var lo', hi' := if Less(Fin(v), lo) then Fin(v) else lo, if Less(hi, Fin(v)) then Fin(v) else hi;
    var t := s + [v];
    if |s| == 0 {
      assert t[0] == v;
    } else {
      var i :| 0 <= i < |s| && s[i] == lo.v;
      var j :| 0 <= j < |s| && s[j] == hi.v;
      assert t[i] == s[i] && t[j] == s[j] && t[|s|] == v;
      assert forall a :: 0 <= a < |s| ==> t[a] == s[a];
    }
  }

  // ---------------------------------------------------------------------
  // split_work_mpi

  /** The chunk size: 2 when every node gets at least two latent dimensions
      on average, 1 otherwise. */
  function WorkUnit(numLatent: int, numNodes: int): (u: int)
    requires numNodes >= 1
    ensures u == 2 <==> 2 * numNodes <= numLatent
    ensures u == 1 || u == 2
  {
    if 2 * numNodes <= numLatent then 2 else 1
  }

  /** What every node gets first: the largest multiple of the unit that all
      nodes can get, i.e. `unit * floor(numLatent / numNodes / unit)`. */
  function MinWork(numLatent: int, numNodes: int): (w: int)
    requires numNodes >= 1
    ensures w % WorkUnit(numLatent, numNodes) == 0
    ensures numNodes * w <= numLatent < numNodes * (w + WorkUnit(numLatent, numNodes))
  {
    var unit := WorkUnit(numLatent, numNodes);
    var q := numLatent / (numNodes * unit);
    assert numLatent == q * (numNodes * unit) + numLatent % (numNodes * unit);
    assert q * (numNodes * unit) == numNodes * (unit * q);
    assert numNodes * (unit * q + unit) == numNodes * (unit * q) + numNodes * unit;
    unit * q
  }

  /** What is left after every node got `MinWork`: less than one unit per node. */
  function Leftover(numLatent: int, numNodes: int): (left: int)
    requires numNodes >= 1
    ensures 0 <= left < numNodes * WorkUnit(numLatent, numNodes)
  {
    var w, unit := MinWork(numLatent, numNodes), WorkUnit(numLatent, numNodes);
    assert numNodes * (w + unit) == numNodes * w + numNodes * unit;
    numLatent - numNodes * w
  }

  /** The extra work node `i` receives in the round-robin pass over the
      leftover: a full unit while enough is left, then the remainder, then 0. */
  function Extra(left: int, unit: int, i: nat): int
  {
    Min(unit, Max(0, left - i * unit))
  }

  function Min(a: int, b: int): int { if a <= b then a else b }
  function Max(a: int, b: int): int { if a <= b then b else a }

  /** The work of every node after `split_work_mpi`. */
  function Split(numLatent: int, numNodes: int): (work: seq<int>)
    requires numNodes >= 1
    ensures |work| == numNodes
  {
    var w, unit, left := MinWork(numLatent, numNodes), WorkUnit(numLatent, numNodes), Leftover(numLatent, numNodes);
    seq(numNodes, i requires 0 <= i < numNodes => w + Extra(left, unit, i))
  }

  function Sum(s: seq<int>): int
  {
    if s == [] then 0 else Sum(s[..|s| - 1]) + s[|s| - 1]
  }

  /** `split_work_mpi`: every node first gets `MinWork`, then the leftover is
      handed out one unit at a time, round-robin from node 0. Entries of
      `work` past `numNodes` are not touched. */
  method SplitWorkMpi(numLatent: int, numNodes: int, work: array<int>)
    requires numNodes >= 1 && work.Length >= numNodes
    modifies work
    ensures work[..numNodes] == Split(numLatent, numNodes)
    ensures work[numNodes..] == old(work[numNodes..])
  {
    var workUnit := if 2 * numNodes <= numLatent then 2 else 1;
    var minWork := workUnit * (numLatent / (numNodes * workUnit));
    assert workUnit == WorkUnit(numLatent, numNodes) && minWork == MinWork(numLatent, numNodes);
    var workLeft := GiveMinWork(numLatent, numNodes, minWork, work);
    HandOutLeftover(numNodes, minWork, workUnit, workLeft, work);
    assert work[..numNodes] == Split(numLatent, numNodes);
  }

  /** The first loop of `split_work_mpi`: `minWork` to every node; returns
      what is left. */
  method GiveMinWork(numLatent: int, numNodes: int, minWork: int, work: array<int>) returns (workLeft: int)
    requires 1 <= numNodes <= work.Length
    modifies work
    ensures forall j :: 0 <= j < numNodes ==> work[j] == minWork
    ensures workLeft == numLatent - numNodes * minWork
    ensures work[numNodes..] == old(work[numNodes..])
  {
    workLeft := numLatent;
    for i := 0 to numNodes
      invariant forall j :: 0 <= j < i ==> work[j] == minWork
      invariant workLeft == numLatent - i * minWork
      invariant work[numNodes..] == old(work[numNodes..])
    {
      work[i] := minWork;
      workLeft := workLeft - minWork;
      assert (i + 1) * minWork == i * minWork + minWork;
    }
  }

  /** The `while` loop of `split_work_mpi`: the leftover, less than one unit
      per node, goes out a unit at a time from node 0 on; it ends before it
      wraps around. */
  method HandOutLeftover(numNodes: int, minWork: int, workUnit: int, workLeft0: int, work: array<int>)
    requires 1 <= numNodes <= work.Length && (workUnit == 1 || workUnit == 2)
    requires 0 <= workLeft0 < numNodes * workUnit
    requires forall j :: 0 <= j < numNodes ==> work[j] == minWork
    modifies work
    ensures forall j :: 0 <= j < numNodes ==> work[j] == minWork + Extra(workLeft0, workUnit, j)
    ensures work[numNodes..] == old(work[numNodes..])
  {
    ghost var left := workLeft0;
    var workLeft := workLeft0;
    ghost var t := 0;
    var i := 0;
    while workLeft > 0
      invariant 0 <= t <= numNodes && i == (if t < numNodes then t else 0)
      invariant workLeft == left - Given(left, workUnit, t)
      invariant workLeft > 0 ==> t < numNodes
      invariant forall j :: 0 <= j < numNodes ==> work[j] == minWork + (if j < t then Extra(left, workUnit, j) else 0)
      invariant work[numNodes..] == old(work[numNodes..])
      decreases workLeft
    {
      var take := if workLeft <= workUnit then workLeft else workUnit;
      GivenStep(left, workUnit, t);
      TakeIsExtra(left, workUnit, t);
      work[i] := work[i] + take;
      workLeft := workLeft - take;
      NextNode(i, numNodes);
      i := (i + 1) % numNodes;
      t := t + 1;
      if workLeft > 0 {
        GivenBelowLeft(left, workUnit, numNodes, t);
      }
    }
    forall j | t <= j < numNodes ensures Extra(left, workUnit, j) == 0 {
      GivenExhausted(left, workUnit, t, j);
    }
  }

  /** The round-robin step to the next node. */
  lemma NextNode(i: int, n: int)
    requires 0 <= i < n
    ensures (i + 1) % n == if i + 1 < n then i + 1 else 0
  {
  }

  /** What the first `t` nodes receive together from the leftover. */
  function Given(left: int, unit: int, t: nat): int
  {
    Min(left, t * unit)
  }

  lemma GivenStep(left: int, unit: int, t: nat)
    requires left >= 0 && (unit == 1 || unit == 2)
    ensures Given(left, unit, t + 1) == Given(left, unit, t) + Extra(left, unit, t)
  {
    assert (t + 1) * unit == t * unit + unit;
  }

  /** While work is left, the next node takes a full unit or what remains. */
  lemma TakeIsExtra(left: int, unit: int, t: nat)
    requires left >= 0 && (unit == 1 || unit == 2) && Given(left, unit, t) < left
    ensures Extra(left, unit, t) == Min(left - Given(left, unit, t), unit)
  {
  }

  lemma GivenBelowLeft(left: int, unit: int, numNodes: nat, t: nat)
    requires 0 <= left < numNodes * unit && (unit == 1 || unit == 2)
    requires Given(left, unit, t) < left
    ensures t < numNodes
  {
    if unit == 1 {
      assert t * unit == t && numNodes * unit == numNodes;
    } else {
      assert t * unit == 2 * t && numNodes * unit == 2 * numNodes;
    }
  }

  lemma GivenExhausted(left: int, unit: int, t: nat, j: nat)
    requires left >= 0 && (unit == 1 || unit == 2) && t <= j && Given(left, unit, t) == left
    ensures Extra(left, unit, j) == 0
  {
    if unit == 1 {
      assert t * unit == t && j * unit == j;
    } else {
      assert t * unit == 2 * t && j * unit == 2 * j;
    }
  }

  /** The shares add up to exactly `numLatent`. */
  lemma SplitSum(numLatent: int, numNodes: int)
    requires numNodes >= 1
    ensures Sum(Split(numLatent, numNodes)) == numLatent
  {
    var work := Split(numLatent, numNodes);
    var w, unit, left := MinWork(numLatent, numNodes), WorkUnit(numLatent, numNodes), Leftover(numLatent, numNodes);
    for n := 0 to numNodes
      invariant Sum(work[..n]) == n * w + Given(left, unit, n)
    {
      assert work[..n + 1][..n] == work[..n];
      GivenStep(left, unit, n);
      assert (n + 1) * w == n * w + w;
    }
    assert work[..numNodes] == work;
    assert Given(left, unit, numNodes) == left by {
      assert numNodes * unit > left;
    }
  }

  /** Every node gets between `MinWork` and `MinWork + unit`, and an earlier
      node never gets less than a later one. */
  lemma SplitBounds(numLatent: int, numNodes: int)
    requires numNodes >= 1
    ensures forall i :: 0 <= i < numNodes ==>
      MinWork(numLatent, numNodes) <= Split(numLatent, numNodes)[i] <= MinWork(numLatent, numNodes) + WorkUnit(numLatent, numNodes)
    ensures forall i, j :: 0 <= i <= j < numNodes ==> Split(numLatent, numNodes)[j] <= Split(numLatent, numNodes)[i]
  {
    var unit, left := WorkUnit(numLatent, numNodes), Leftover(numLatent, numNodes);
    forall i, j | 0 <= i <= j < numNodes ensures Extra(left, unit, j) <= Extra(left, unit, i) {
      assert i * unit <= j * unit;
    }
  }

  // ---------------------------------------------------------------------
  // auc: ranking and cumulative counts

  /** `0, 1, ..., n - 1`. */
  function Iota(n: nat): (s: seq<nat>)
    ensures |s| == n && forall i :: 0 <= i < n ==> s[i] == i
  {
    seq(n, i => i)
  }

  /** `perm` lists indices of `pred` in ascending order of prediction. */
  ghost predicate SortedBy(pred: seq<real>, perm: seq<nat>)
  {
    && (forall i :: 0 <= i < |perm| ==> perm[i] < |pred|)
    && (forall i, j :: 0 <= i < j < |perm| ==> pred[perm[i]] <= pred[perm[j]])
  }

  /** The ranking of `auc`: the indices `0 .. n - 1` reordered so that the
      predictions ascend. The library calls `std::sort`, whose order among
      equal predictions is unspecified; this one is an insertion sort. */
  method SortedPermutation(pred: seq<real>) returns (perm: array<nat>)
    ensures fresh(perm)
    ensures multiset(perm[..]) == multiset(Iota(|pred|))
    ensures SortedBy(pred, perm[..])
  {
    var n := |pred|;
    perm := new nat[n](i => i);
    assert perm[..] == Iota(n);
    for i := 0 to n
      invariant multiset(perm[..]) == multiset(Iota(n))
      invariant forall a :: 0 <= a < n ==> perm[a] < n
      invariant SortedBy(pred, perm[..i])
    {
      InsertLast(pred, perm, i);
    }
    assert perm[..n] == perm[..];
  }

  /** Moves `perm[i]` down into the sorted prefix `perm[..i]`, one adjacent
      swap at a time. */
  method InsertLast(pred: seq<real>, perm: array<nat>, i: nat)
    requires i < perm.Length
    requires forall a :: 0 <= a < perm.Length ==> perm[a] < |pred|
    requires SortedBy(pred, perm[..i])
    modifies perm
    ensures multiset(perm[..]) == old(multiset(perm[..]))
    ensures forall a :: 0 <= a < perm.Length ==> perm[a] < |pred|
    ensures SortedBy(pred, perm[..i + 1])
  {
    var j := i;
    InsertStart(pred, perm[..], i);
    while j > 0 && pred[perm[j - 1]] > pred[perm[j]]
      invariant 0 <= j <= i
      invariant multiset(perm[..]) == old(multiset(perm[..]))
      invariant Inserting(pred, perm[..], i, j)
    {
      ghost var before := perm[..];
      perm[j - 1], perm[j] := perm[j], perm[j - 1];
      SwapDown(pred, before, i, j);
      MultisetSwap(before, j - 1, j);
      assert perm[..] == before[j - 1 := before[j]][j := before[j - 1]];
      j := j - 1;
    }
    InsertDone(pred, perm[..], i, j);
  }

  /** The state of the insertion: every index of `s` is an index of `pred`,
      and `s[..i + 1]` is sorted except around the element moving down, now at
      position `j`, which is no greater than what follows it. */
  ghost predicate Inserting(pred: seq<real>, s: seq<nat>, i: nat, j: nat)
  {
    && i < |s| && j <= i
    && (forall a :: 0 <= a < |s| ==> s[a] < |pred|)
    && (forall a, b :: 0 <= a < b <= i && b != j ==> pred[s[a]] <= pred[s[b]])
    && (j < i ==> pred[s[j]] <= pred[s[j + 1]])
  }

  lemma InsertStart(pred: seq<real>, s: seq<nat>, i: nat)
    requires i < |s| && forall a :: 0 <= a < |s| ==> s[a] < |pred|
    requires SortedBy(pred, s[..i])
    ensures Inserting(pred, s, i, i)
  {
    forall a, b | 0 <= a < b < i ensures pred[s[a]] <= pred[s[b]] {
      assert s[..i][a] == s[a] && s[..i][b] == s[b];
    }
  }

  /** Swapping the moving element with a greater left neighbour moves it one
      place down and keeps the rest in order. */
  lemma SwapDown(pred: seq<real>, s: seq<nat>, i: nat, j: nat)
    requires Inserting(pred, s, i, j) && 0 < j
    requires pred[s[j - 1]] > pred[s[j]]
    ensures Inserting(pred, s[j - 1 := s[j]][j := s[j - 1]], i, j - 1)
  {
    var t := s[j - 1 := s[j]][j := s[j - 1]];
    forall a, b | 0 <= a < b <= i && b != j - 1 ensures pred[t[a]] <= pred[t[b]] {
      if b == j {
        if a < j - 1 {
          assert pred[s[a]] <= pred[s[j - 1]];
        }
      } else if a == j - 1 {
        if b > j {
          assert pred[s[j]] <= pred[s[j + 1]];
          assert pred[s[j + 1]] <= pred[s[b]] || b == j + 1;
        }
      } else if a == j {
        assert pred[s[j - 1]] <= pred[s[b]];
      }
    }
  }

  lemma MultisetSwap<T>(s: seq<T>, p: nat, q: nat)
    requires p < q < |s|
    ensures multiset(s[p := s[q]][q := s[p]]) == multiset(s)
  {
    var t := s[p := s[q]][q := s[p]];
    assert s == s[..p] + [s[p]] + s[p + 1..q] + [s[q]] + s[q + 1..];
    assert t == s[..p] + [s[q]] + s[p + 1..q] + [s[p]] + s[q + 1..];
  }

  /** When the moving element rests, `s[..i + 1]` is sorted. */
  lemma InsertDone(pred: seq<real>, s: seq<nat>, i: nat, j: nat)
    requires Inserting(pred, s, i, j)
    requires j == 0 || pred[s[j - 1]] <= pred[s[j]]
    ensures forall a :: 0 <= a < |s| ==> s[a] < |pred|
    ensures SortedBy(pred, s[..i + 1])
  {
    forall a, b | 0 <= a < b <= i ensures pred[s[a]] <= pred[s[b]] {
      if b == j && a < j - 1 {
        assert pred[s[a]] <= pred[s[j - 1]];
      }
    }
  }

  /** Sum of the labels of the first `m` ranked items. */
  function LabelSum(test: seq<real>, perm: seq<nat>, m: nat): real
    requires m <= |perm| && forall i :: 0 <= i < |perm| ==> perm[i] < |test|
  {
    if m == 0 then 0.0 else LabelSum(test, perm, m - 1) + test[perm[m - 1]]
  }

  /** The number of positives (label 1) among the first `m` ranked items. */
  function Positives(test: seq<real>, perm: seq<nat>, m: nat): nat
    requires m <= |perm| && forall i :: 0 <= i < |perm| ==> perm[i] < |test|
  {
    if m == 0 then 0 else Positives(test, perm, m - 1) + (if test[perm[m - 1]] == 1.0 then 1 else 0)
  }

  ghost predicate Binary(test: seq<real>)
  {
    forall i :: 0 <= i < |test| ==> test[i] == 0.0 || test[i] == 1.0
  }

  /** `stack_x` and `stack_y` of `auc`: after the `i + 1` lowest-ranked items,
      the running sum of their labels and of one minus their labels. */
  method CumulativeCounts(test: seq<real>, perm: seq<nat>) returns (stackX: array<real>, stackY: array<real>)
    requires |perm| >= 1
    requires forall i :: 0 <= i < |perm| ==> perm[i] < |test|
    ensures fresh(stackX) && fresh(stackY)
    ensures stackX.Length == stackY.Length == |perm|
    ensures forall i :: 0 <= i < |perm| ==> stackX[i] == LabelSum(test, perm, i + 1)
    ensures forall i :: 0 <= i < |perm| ==> stackX[i] + stackY[i] == (i + 1) as real
    ensures Binary(test) ==> forall i :: 0 <= i < |perm| ==>
      && stackX[i] == Positives(test, perm, i + 1) as real
      && stackY[i] == (i + 1 - Positives(test, perm, i + 1)) as real
  {
    var n := |perm|;
    stackX := new real[n];
    stackY := new real[n];
    stackX[0] := test[perm[0]];
    stackY[0] := 1.0 - stackX[0];
    for i := 1 to n
      invariant forall a :: 0 <= a < i ==> stackX[a] == LabelSum(test, perm, a + 1)
      invariant forall a :: 0 <= a < i ==> stackX[a] + stackY[a] == (a + 1) as real
    {
      stackX[i] := stackX[i - 1] + test[perm[i]];
      stackY[i] := stackY[i - 1] + 1.0 - test[perm[i]];
    }
    if Binary(test) {
      forall i | 0 <= i < n ensures stackX[i] == Positives(test, perm, i + 1) as real {
        LabelSumCountsPositives(test, perm, i + 1);
      }
    }
  }

  /** For 0/1 labels the running label sum counts the positives, and the
      running `1 - label` sum counts the negatives. */
  lemma {:induction false} LabelSumCountsPositives(test: seq<real>, perm: seq<nat>, m: nat)
    requires m <= |perm| && forall i :: 0 <= i < |perm| ==> perm[i] < |test|
    requires Binary(test)
    ensures LabelSum(test, perm, m) == Positives(test, perm, m) as real
    ensures Positives(test, perm, m) <= m
  {
    if m > 0 {
      LabelSumCountsPositives(test, perm, m - 1);
    }
  }
}
