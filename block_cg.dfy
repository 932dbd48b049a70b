/** The outer loop of `solve_blockcg`: the right-hand sides (rows of `B`) are
    split into blocks, each block is handed to the inner block
    conjugate-gradient solver, its solution is copied into the matching rows
    of `X`, and the largest iteration count is returned. The inner solver's
    numerics (Cholesky factorisations and a floating-point convergence test)
    are an opaque function from a block to its solution. */
module BlockCG {
  import opened Errors
  import opened Kernels

  /** `nrows` consecutive rows of `B` (and `X`) starting at row `start`. */
  datatype Block = Block(start: nat, nrows: nat)
  {
    predicate Contains(r: nat)
    {
      start <= r < start + nrows
    }
  }

  /** What the inner solver produces for a block: its iteration count and the
      block's rows of `X`. */
  datatype Solution = Solution(iters: nat, rows: Mat)

  const ColsMismatch: string := "B.cols() must equal K.cols()"

  /** The inner loop runs `iter` from 0 up to this bound. */
  const MaxIterations: nat := 1000

  /** How iteration `k` of the inner loop ends: it goes on, its convergence
      test passes (`break`), or a Cholesky factorisation reports an error and
      the solver throws, leaving in `X` the zeroed start plus the updates made
      so far (`left`). */
  datatype Iteration = Continue | Converged | Throws(msg: string, left: Mat)

  /** The inner `solve_blockcg` as seen from the outer loop: `K` has `kCols`
      columns and `B` has `bCols`; `iterate(blk, k)` says how iteration `k`
      on block `blk` ends, and `solution(blk, n)` is the unnormalised `X`
      when the loop stops with `iter == n`. The floating-point numerics behind
      both are not modelled. */
  datatype Solver = Solver(kCols: nat, bCols: nat, iterate: (Block, nat) -> Iteration, solution: (Block, nat) -> Mat)
  {
    /** The value of `iter` at which the inner loop stops, counting from
        `k`: the first iteration that does not go on, or `MaxIterations`. */
    function StopAt(blk: Block, k: nat): (n: nat)
      requires k <= MaxIterations
      ensures k <= n <= MaxIterations
      ensures forall j :: k <= j < n ==> iterate(blk, j).Continue?
      ensures n < MaxIterations ==> !iterate(blk, n).Continue?
      decreases MaxIterations - k
    {
      if k == MaxIterations || !iterate(blk, k).Continue? then k else StopAt(blk, k + 1)
    }

    /** What the inner solver returns for `blk`: the size error, the error of
        the first failed factorisation, or the final `iter` with the
        solution. */
    function Run(blk: Block): (r: Result<Solution>)
      ensures bCols != kCols ==> r == Err(ColsMismatch)
    {
      if bCols != kCols then Err(ColsMismatch) else RunFrom(blk, 0)
    }

    /** The inner loop from iteration `k` on. */
    function RunFrom(blk: Block, k: nat): Result<Solution>
      requires k <= MaxIterations
      decreases MaxIterations - k
    {
      if k == MaxIterations then Ok(Solution(k, solution(blk, k)))
      else
        match iterate(blk, k)
        case Continue => RunFrom(blk, k + 1)
        case Converged => Ok(Solution(k, solution(blk, k)))
        case Throws(msg, _) => Err(msg)
    }

    /** The opaque numerics produce matrices of the block's shape, with rows
        of width `width`. */
    ghost predicate Fits(width: nat)
    {
      forall blk, k ::
        && |solution(blk, k)| == blk.nrows && Shaped(solution(blk, k), width)
        && (iterate(blk, k).Throws? ==> |iterate(blk, k).left| == blk.nrows && Shaped(iterate(blk, k).left, width))
    }
  }

  /** The loop from iteration `k` ends where `StopAt` says. */
  lemma {:induction false} RunStopsAt(s: Solver, blk: Block, k: nat)
    requires k <= MaxIterations
    ensures s.RunFrom(blk, k) ==
      if s.StopAt(blk, k) < MaxIterations && s.iterate(blk, s.StopAt(blk, k)).Throws?
      then Err(s.iterate(blk, s.StopAt(blk, k)).msg)
      else Ok(Solution(s.StopAt(blk, k), s.solution(blk, s.StopAt(blk, k))))
    decreases MaxIterations - k
  {
    if k < MaxIterations && s.iterate(blk, k).Continue? {
      RunStopsAt(s, blk, k + 1);
    }
  }

  /** The inner solver succeeds exactly when no iteration before the one
      that converges (or before the bound) throws: it then returns the
      number of iterations that went on and the solution at that point;
      otherwise it throws the message of the first failed factorisation. */
  lemma RunMeaning(s: Solver, blk: Block)
    ensures s.Run(blk).Ok? ==>
      && s.Run(blk).value.iters <= MaxIterations
      && s.Run(blk).value.rows == s.solution(blk, s.Run(blk).value.iters)
      && (forall j :: 0 <= j < s.Run(blk).value.iters ==> s.iterate(blk, j).Continue?)
      && (s.Run(blk).value.iters == MaxIterations || s.iterate(blk, s.Run(blk).value.iters).Converged?)
    ensures s.Run(blk).Err? && s.bCols == s.kCols ==>
      exists n :: 0 <= n < MaxIterations && s.iterate(blk, n).Throws? && s.iterate(blk, n).msg == s.Run(blk).msg &&
        forall j :: 0 <= j < n ==> s.iterate(blk, j).Continue?
  {
    var n := s.StopAt(blk, 0);
    RunStopsAt(s, blk, 0);
    if s.Run(blk).Err? && s.bCols == s.kCols {
      assert s.iterate(blk, n).Throws?;
    }
  }

  /** What `X` holds after iteration `it` ended the loop (`m` before). */
  function Left(it: Iteration, m: Mat): Mat
  {
    match it
    case Throws(_, left) => left
    case _ => m
  }

  /** The iteration count or error of an inner solve. */
  function Count(r: Result<Solution>): Result<nat>
  {
    match r
    case Ok(sol) => Ok(sol.iters)
    case Err(e) => Err(e)
  }

  /** The inner solver run on `X` itself, from `X == m`: its result and what
      `X` holds afterwards. The size check throws before `X` is touched; a
      failed factorisation leaves what that iteration left. */
  ghost function InPlace(m: Mat, blk: Block, s: Solver): (Result<nat>, Mat)
  {
    match s.Run(blk)
    case Ok(sol) => (Ok(sol.iters), sol.rows)
    case Err(e) => (Err(e), if s.bCols != s.kCols then m else Left(s.iterate(blk, s.StopAt(blk, 0)), m))
  }

  function Max(a: nat, b: nat): nat { if a <= b then b else a }

  // ------------------------------------------------------------------ blocks

  /** The blocks the loop visits from row `i` on, as written: a block of
      `blocksize` rows, except that a block reaching within `excess` rows of
      the end takes all remaining rows; the loop then still advances by
      `blocksize`. */
  function BlocksFrom(i: nat, rows: nat, blocksize: nat, excess: nat): (blocks: seq<Block>)
    requires 1 <= blocksize
    ensures forall q :: 0 <= q < |blocks| ==>
      i <= blocks[q].start < rows && 1 <= blocks[q].nrows && blocks[q].start + blocks[q].nrows <= rows
    decreases rows - i
  {
    if i >= rows then []
    else [Block(i, if i + blocksize + excess >= rows then rows - i else blocksize)] + BlocksFrom(i + blocksize, rows, blocksize, excess)
  }

  /** Blocks as the loop lays them out from row `i`: block `q` starts `q`
      strides of `blocksize` after `i` and has `blocksize` rows, unless it
      reaches within `excess` rows of the end, when it takes all remaining
      rows; the last block ends at `rows`, and the strides together pass
      `rows`. */
  ghost predicate Strided(blocks: seq<Block>, i: nat, rows: nat, blocksize: nat, excess: nat)
  {
    && (forall q :: 0 <= q < |blocks| ==> blocks[q].start == i + q * blocksize)
    && (forall q :: 0 <= q < |blocks| ==>
          blocks[q].nrows == if blocks[q].start + blocksize + excess >= rows then rows - blocks[q].start else blocksize)
    && rows <= i + |blocks| * blocksize
    && (|blocks| > 0 ==> blocks[|blocks| - 1].start + blocks[|blocks| - 1].nrows == rows)
  }

  /** The loop visits the blocks starting at `i`, `i + blocksize`, ... up
      to the last start below `rows`. */
  lemma {:induction false} BlocksFromStrided(i: nat, rows: nat, blocksize: nat, excess: nat)
    requires 1 <= blocksize
    ensures Strided(BlocksFrom(i, rows, blocksize, excess), i, rows, blocksize, excess)
    decreases rows - i
  {
    if i < rows {
      BlocksFromStrided(i + blocksize, rows, blocksize, excess);
      var rest := BlocksFrom(i + blocksize, rows, blocksize, excess);
      var blocks := BlocksFrom(i, rows, blocksize, excess);
      assert blocks == [blocks[0]] + rest;
      forall q | 0 <= q < |blocks|
        ensures blocks[q].start == i + q * blocksize
      {
        if q > 0 {
          assert blocks[q] == rest[q - 1];
          MulSucc(q - 1, blocksize);
        }
      }
      MulSucc(|rest|, blocksize);
    }
  }

  lemma MulSucc(q: nat, b: nat)
    ensures (q + 1) * b == q * b + b
  {
  }

  /** All blocks of the outer `solve_blockcg`: a system with at most
      `excess + blocksize` right-hand sides is solved as one block. */
  function Blocks(rows: nat, blocksize: nat, excess: nat): (blocks: seq<Block>)
    requires 1 <= blocksize
    ensures forall q :: 0 <= q < |blocks| ==> blocks[q].start + blocks[q].nrows <= rows
  {
    if rows <= excess + blocksize then [Block(0, rows)] else BlocksFrom(0, rows, blocksize, excess)
  }

  /** `solve_blockcg`'s blocks: all rows as one block for a small system,
      otherwise the strided blocks from row 0. */
  lemma BlocksStrided(rows: nat, blocksize: nat, excess: nat)
    requires 1 <= blocksize
    ensures rows <= excess + blocksize ==> Blocks(rows, blocksize, excess) == [Block(0, rows)]
    ensures rows > excess + blocksize ==>
      1 < |Blocks(rows, blocksize, excess)| && Strided(Blocks(rows, blocksize, excess), 0, rows, blocksize, excess)
  {
    if rows > excess + blocksize {
      BlocksFromStrided(0, rows, blocksize, excess);
      var blocks := Blocks(rows, blocksize, excess);
      assert blocks[0].nrows == blocksize && blocks[0].start + blocks[0].nrows < rows;
    }
  }

  /** Every row is solved by at least one block, so the outer loop leaves no
      row of `X` unwritten. */
  lemma BlocksCoverRows(rows: nat, blocksize: nat, excess: nat, r: nat)
    requires 1 <= blocksize && r < rows
    ensures exists q :: 0 <= q < |Blocks(rows, blocksize, excess)| && Blocks(rows, blocksize, excess)[q].Contains(r)
  {
    if rows > excess + blocksize {
      BlocksFromCover(0, rows, blocksize, excess, r);
    } else {
      assert Blocks(rows, blocksize, excess)[0].Contains(r);
    }
  }

  lemma {:induction false} BlocksFromCover(i: nat, rows: nat, blocksize: nat, excess: nat, r: nat)
    requires 1 <= blocksize && i <= r < rows
    ensures exists q :: 0 <= q < |BlocksFrom(i, rows, blocksize, excess)| && BlocksFrom(i, rows, blocksize, excess)[q].Contains(r)
    decreases rows - i
  {
    var blocks := BlocksFrom(i, rows, blocksize, excess);
    if blocks[0].Contains(r) {
    } else {
      BlocksFromCover(i + blocksize, rows, blocksize, excess, r);
      var q :| 0 <= q < |BlocksFrom(i + blocksize, rows, blocksize, excess)| && BlocksFrom(i + blocksize, rows, blocksize, excess)[q].Contains(r);
      assert blocks[q + 1] == BlocksFrom(i + blocksize, rows, blocksize, excess)[q];
    }
  }

  /** As written, the outer loop solves some rows twice: with 10 right-hand
      sides, blocks of 4 and an excess of 2, the block at row 4 already takes
      the last six rows, and the loop goes on to solve rows 8 and 9 again. */
  lemma BlocksRevisitRows()
    ensures Blocks(10, 4, 2) == [Block(0, 4), Block(4, 6), Block(8, 2)]
    ensures Blocks(10, 4, 2)[1].Contains(8) && Blocks(10, 4, 2)[2].Contains(8)
  {
    assert BlocksFrom(12, 10, 4, 2) == [];
    assert BlocksFrom(8, 10, 4, 2) == [Block(8, 2)];
    assert BlocksFrom(4, 10, 4, 2) == [Block(4, 6), Block(8, 2)];
  }

  /** The evidently intended split: the block that takes the remaining rows
      is the last one. */
  function IntendedBlocksFrom(i: nat, rows: nat, blocksize: nat, excess: nat): seq<Block>
    requires 1 <= blocksize
    decreases rows - i
  {
    if i >= rows then []
    else if i + blocksize + excess >= rows then [Block(i, rows - i)]
    else [Block(i, blocksize)] + IntendedBlocksFrom(i + blocksize, rows, blocksize, excess)
  }

  function IntendedBlocks(rows: nat, blocksize: nat, excess: nat): seq<Block>
    requires 1 <= blocksize
  {
    if rows <= excess + blocksize then [Block(0, rows)] else IntendedBlocksFrom(0, rows, blocksize, excess)
  }

  /** Non-empty blocks laid end to end from row `i` to row `rows`. */
  ghost predicate Tiles(blocks: seq<Block>, i: nat, rows: nat)
  {
    && (|blocks| == 0 <==> i == rows)
    && (|blocks| > 0 ==> blocks[0].start == i && blocks[|blocks| - 1].start + blocks[|blocks| - 1].nrows == rows)
    && (forall q :: 0 <= q < |blocks| ==> 1 <= blocks[q].nrows)
    && (forall q :: 0 <= q < |blocks| - 1 ==> blocks[q + 1].start == blocks[q].start + blocks[q].nrows)
  }

  lemma {:induction false} IntendedBlocksFromTile(i: nat, rows: nat, blocksize: nat, excess: nat)
    requires 1 <= blocksize && i < rows
    ensures Tiles(IntendedBlocksFrom(i, rows, blocksize, excess), i, rows)
    decreases rows - i
  {
    if i + blocksize + excess < rows {
      IntendedBlocksFromTile(i + blocksize, rows, blocksize, excess);
      var rest := IntendedBlocksFrom(i + blocksize, rows, blocksize, excess);
      var blocks := IntendedBlocksFrom(i, rows, blocksize, excess);
      assert blocks == [Block(i, blocksize)] + rest;
      assert blocks[|blocks| - 1] == rest[|rest| - 1];
      forall q | 0 <= q < |blocks|
        ensures 1 <= blocks[q].nrows
      {
        if q > 0 {
          assert blocks[q] == rest[q - 1];
        }
      }
      forall q | 0 <= q < |blocks| - 1
        ensures blocks[q + 1].start == blocks[q].start + blocks[q].nrows
      {
        if q > 0 {
          assert blocks[q] == rest[q - 1] && blocks[q + 1] == rest[q];
        }
      }
    }
  }

  /** Tiling blocks hold every row in exactly one block. */
  lemma TilesHoldRowsOnce(blocks: seq<Block>, i: nat, rows: nat, r: nat)
    requires Tiles(blocks, i, rows) && i <= r < rows
    ensures exists q :: 0 <= q < |blocks| && blocks[q].Contains(r)
    ensures forall q, q' :: 0 <= q < |blocks| && 0 <= q' < |blocks| && blocks[q].Contains(r) && blocks[q'].Contains(r) ==> q == q'
  {
    // walk to the block in which `r` falls
    var t := 0;
    while blocks[t].start + blocks[t].nrows <= r
      invariant 0 <= t < |blocks| && blocks[t].start <= r
      decreases |blocks| - t
    {
      assert t + 1 < |blocks|;
      t := t + 1;
    }
    assert blocks[t].Contains(r);
    // a later block starts at or after the end of an earlier one
    forall q, q' | 0 <= q < q' < |blocks|
      ensures !(blocks[q].Contains(r) && blocks[q'].Contains(r))
    {
      StartsIncrease(blocks, q + 1, q');
    }
  }

  /** In laid-out blocks, block `q` starts no earlier than where block `p - 1`
      ends, for `p <= q`. */
  lemma StartsIncrease(blocks: seq<Block>, p: nat, q: nat)
    requires 1 <= p <= q < |blocks|
    requires forall t :: 0 <= t < |blocks| ==> 1 <= blocks[t].nrows
    requires forall t :: 0 <= t < |blocks| - 1 ==> blocks[t + 1].start == blocks[t].start + blocks[t].nrows
    ensures blocks[p - 1].start + blocks[p - 1].nrows <= blocks[q].start
  {
    for t := p to q
      invariant blocks[p - 1].start + blocks[p - 1].nrows <= blocks[t].start
    {
    }
  }

  /** The intended split solves every row exactly once. */
  lemma IntendedBlocksPartition(rows: nat, blocksize: nat, excess: nat, r: nat)
    requires 1 <= blocksize && r < rows
    ensures Tiles(IntendedBlocks(rows, blocksize, excess), 0, rows)
    ensures exists q :: 0 <= q < |IntendedBlocks(rows, blocksize, excess)| && IntendedBlocks(rows, blocksize, excess)[q].Contains(r)
    ensures forall q, q' ::
      (0 <= q < |IntendedBlocks(rows, blocksize, excess)| && 0 <= q' < |IntendedBlocks(rows, blocksize, excess)| &&
       IntendedBlocks(rows, blocksize, excess)[q].Contains(r) && IntendedBlocks(rows, blocksize, excess)[q'].Contains(r)) ==> q == q'
  {
    if rows > excess + blocksize {
      IntendedBlocksFromTile(0, rows, blocksize, excess);
    }
    TilesHoldRowsOnce(IntendedBlocks(rows, blocksize, excess), 0, rows, r);
  }

  // ------------------------------------------------------------------ solving

  /** The rows of `blk` in `m` replaced by `rows`. */
  function Overwrite(m: Mat, blk: Block, rows: Mat): (m': Mat)
    ensures |m'| == |m|
  {
    seq(|m|, r requires 0 <= r < |m| =>
      if blk.Contains(r) && r - blk.start < |rows| then rows[r - blk.start] else m[r])
  }

  /** `X` after the solutions of `blocks` are copied in, in order. */
  function Apply(m: Mat, blocks: seq<Block>, s: Solver): (m': Mat)
    ensures |m'| == |m|
  {
    if |blocks| == 0 then m else Step(Apply(m, blocks[..|blocks| - 1], s), blocks[|blocks| - 1], s)
  }

  /** `X` after the solution of one block is copied in; a block the solver
      rejects leaves `X` as it was. */
  function Step(m: Mat, blk: Block, s: Solver): (m': Mat)
    ensures |m'| == |m|
  {
    match s.Run(blk)
    case Ok(sol) => Overwrite(m, blk, sol.rows)
    case Err(_) => m
  }

  function IterOf(res: Result<Solution>): nat
  {
    if res.Ok? then res.value.iters else 0
  }

  /** `max_iter`: the largest iteration count over the blocks (0 for none). */
  function MaxIters(blocks: seq<Block>, s: Solver): (m: nat)
    ensures forall q :: 0 <= q < |blocks| ==> IterOf(s.Run(blocks[q])) <= m
    ensures |blocks| == 0 ==> m == 0
    ensures |blocks| > 0 ==> exists q :: 0 <= q < |blocks| && m == IterOf(s.Run(blocks[q]))
  {
    if |blocks| == 0 then 0
    else
      var before := MaxIters(blocks[..|blocks| - 1], s);
      assert forall q :: 0 <= q < |blocks| - 1 ==> blocks[..|blocks| - 1][q] == blocks[q];
      Max(IterOf(s.Run(blocks[|blocks| - 1])), before)
  }

  /** The iteration count the outer loop reports never exceeds the inner
      loop's bound. */
  lemma MaxItersBounded(blocks: seq<Block>, s: Solver)
    ensures MaxIters(blocks, s) <= MaxIterations
  {
    if |blocks| > 0 {
      var q :| 0 <= q < |blocks| && MaxIters(blocks, s) == IterOf(s.Run(blocks[q]));
      RunMeaning(s, blocks[q]);
    }
  }

  /** `X.block(blk.start, 0, blk.nrows, X.cols()) = Xblock`. */
  method WriteBlock(x: array2<real>, blk: Block, rows: Mat)
    requires blk.start + blk.nrows <= x.Length0 && |rows| == blk.nrows
    requires forall r :: 0 <= r < blk.nrows ==> |rows[r]| == x.Length1
    modifies x
    ensures MatOf(x) == Overwrite(old(MatOf(x)), blk, rows)
  {
    ghost var before := MatOf(x);
    for r := blk.start to blk.start + blk.nrows
      invariant forall t, c :: 0 <= t < x.Length0 && 0 <= c < x.Length1 ==>
        x[t, c] == if blk.start <= t < r then rows[t - blk.start][c] else before[t][c]
    {
      for c := 0 to x.Length1
        invariant forall t, k :: 0 <= t < x.Length0 && 0 <= k < x.Length1 ==>
          x[t, k] == if blk.start <= t < r || (t == r && k < c) then rows[t - blk.start][k] else before[t][k]
      {
        x[r, c] := rows[r - blk.start][c];
      }
    }
    forall t | 0 <= t < x.Length0
      ensures MatOf(x)[t] == Overwrite(before, blk, rows)[t]
    {
      assert forall c :: 0 <= c < x.Length1 ==> MatOf(x)[t][c] == Overwrite(before, blk, rows)[t][c];
    }
  }

  /** The result of solving `blocks` in order, starting from `X == m` and
      ending with `X == m'`: if every block is solved, the largest iteration
      count and all solutions copied in; otherwise the error of the first
      block that fails, with the solutions of the blocks before it copied in. */
  ghost predicate SolvedInOrder(r: Result<nat>, blocks: seq<Block>, s: Solver, m: Mat, m': Mat)
  {
    && (r.Ok? <==> forall q :: 0 <= q < |blocks| ==> s.Run(blocks[q]).Ok?)
    && (r.Ok? ==> r.value == MaxIters(blocks, s) && m' == Apply(m, blocks, s))
    && (r.Err? ==> exists q :: 0 <= q < |blocks| && FirstFailure(blocks, s, q) && s.Run(blocks[q]) == Err(r.msg) && m' == Apply(m, blocks[..q], s))
  }

  /** Block `q` is the first of `blocks` the solver fails on. */
  ghost predicate FirstFailure(blocks: seq<Block>, s: Solver, q: nat)
    requires q < |blocks|
  {
    s.Run(blocks[q]).Err? && forall p :: 0 <= p < q ==> s.Run(blocks[p]).Ok?
  }

  /** The loop over `blocks`, one block at a time, from `X == m` and a
      maximum of `maxIter` so far: the first error thrown ends it. */
  ghost function SolveSeq(m: Mat, blocks: seq<Block>, s: Solver, maxIter: nat): (Result<nat>, Mat)
    decreases |blocks|
  {
    if |blocks| == 0 then (Ok(maxIter), m)
    else
      match s.Run(blocks[0])
      case Err(e) => (Err(e), m)
      case Ok(sol) => SolveSeq(Overwrite(m, blocks[0], sol.rows), blocks[1..], s, Max(sol.iters, maxIter))
  }

  /** What the loop achieves: continuing after the blocks `done`, all solved,
      the loop ends as `SolvedInOrder` says for all the blocks. */
  lemma {:induction false} SolveSeqInOrder(m: Mat, done: seq<Block>, rest: seq<Block>, s: Solver)
    requires forall q :: 0 <= q < |done| ==> s.Run(done[q]).Ok?
    ensures SolvedInOrder(SolveSeq(Apply(m, done, s), rest, s, MaxIters(done, s)).0, done + rest, s, m,
                          SolveSeq(Apply(m, done, s), rest, s, MaxIters(done, s)).1)
    decreases |rest|
  {
    if |rest| == 0 {
      assert done + rest == done;
    } else {
      var blk := rest[0];
      assert done + rest == done + ([blk] + rest[1..]);
      match s.Run(blk)
      case Err(e) =>
        FailsAt(done + rest, done, blk, rest[1..], s, m, e);
      case Ok(sol) =>
        SolveSeqStep(m, done, rest, s, sol);
        SolveSeqInOrder(m, done + [blk], rest[1..], s);
        MoveFirst(done, rest);
    }
  }

  lemma MoveFirst<T>(done: seq<T>, rest: seq<T>)
    requires |rest| > 0
    ensures (done + [rest[0]]) + rest[1..] == done + rest
  {
    assert rest == [rest[0]] + rest[1..];
  }

  /** Solving the next block of `rest` moves it over to `done`. */
  lemma SolveSeqStep(m: Mat, done: seq<Block>, rest: seq<Block>, s: Solver, sol: Solution)
    requires |rest| > 0 && s.Run(rest[0]) == Ok(sol)
    ensures SolveSeq(Apply(m, done, s), rest, s, MaxIters(done, s))
         == SolveSeq(Apply(m, done + [rest[0]], s), rest[1..], s, MaxIters(done + [rest[0]], s))
  {
    SolvedOneMore(m, done, rest[0], s, sol);
  }

  /** The outer `solve_blockcg`: a system with at most `excess + blocksize`
      right-hand sides goes to the inner solver whole, on `X` itself;
      otherwise the blocks are solved one after another, each into a
      temporary copied into `X` once it is solved. */
  method SolveBlockcg(x: array2<real>, s: Solver, b: array2<real>, blocksize: nat, excess: nat) returns (r: Result<nat>)
    requires 1 <= blocksize
    requires x.Length0 == b.Length0 && s.bCols == b.Length1 && s.Fits(x.Length1)
    modifies x
    ensures b.Length0 <= excess + blocksize ==> (r, MatOf(x)) == InPlace(old(MatOf(x)), Block(0, b.Length0), s)
    ensures b.Length0 > excess + blocksize ==> SolvedInOrder(r, Blocks(b.Length0, blocksize, excess), s, old(MatOf(x)), MatOf(x))
    ensures r.Ok? ==> SolvedInOrder(r, Blocks(b.Length0, blocksize, excess), s, old(MatOf(x)), MatOf(x))
  {
    ghost var start := MatOf(x);
    if b.Length0 <= excess + blocksize {
      r := InnerSolve(x, s, Block(0, b.Length0));
      if r.Ok? {
        WholeInOrder(start, s, x.Length1, r, MatOf(x));
      }
    } else {
      r := SolveInBlocks(x, s, blocksize, excess);
      ghost var blocks := Blocks(b.Length0, blocksize, excess);
      SolveSeqInOrder(start, [], blocks, s);
      assert [] + blocks == blocks;
    }
  }

  /** A successful solve of all rows as one block is the one-block case of
      `SolvedInOrder`. */
  lemma WholeInOrder(m: Mat, s: Solver, width: nat, r: Result<nat>, m': Mat)
    requires s.Fits(width) && (r, m') == InPlace(m, Block(0, |m|), s) && r.Ok?
    ensures SolvedInOrder(r, [Block(0, |m|)], s, m, m')
  {
    var blk := Block(0, |m|);
    var sol := s.Run(blk).value;
    assert [blk][..0] == [];
    assert MaxIters([blk], s) == sol.iters;
    RunMeaning(s, blk);
    assert |s.solution(blk, sol.iters)| == blk.nrows;
    OverwriteAll(m, sol.rows);
  }

  /** The inner `solve_blockcg` on an `X` with one row per row of the block:
      the size check, then the loop `for (iter = 0; iter < 1000; iter++)`
      whose iterations converge (`break`), throw, or go on; the result is the
      final `iter`. The numerics' writes to `X` are summarised by the matrix
      the loop ends with. */
  method InnerSolve(xb: array2<real>, s: Solver, blk: Block) returns (res: Result<nat>)
    requires xb.Length0 == blk.nrows && s.Fits(xb.Length1)
    modifies xb
    ensures (res, MatOf(xb)) == InPlace(old(MatOf(xb)), blk, s)
  {
    if s.bCols != s.kCols {
      return Err(ColsMismatch);
    }
    ghost var before := MatOf(xb);
    var iter, thrown := Iterations(s, blk);
    InPlaceStop(before, blk, s);
    FitsAt(s, xb.Length1, blk, iter);
    if thrown {
      Fill(xb, s.iterate(blk, iter).left);
      return Err(s.iterate(blk, iter).msg);
    }
    Fill(xb, s.solution(blk, iter));
    res := Ok(iter);
  }

  /** The inner solver on `X` ends at the iteration where its loop stops. */
  lemma InPlaceStop(m: Mat, blk: Block, s: Solver)
    requires s.bCols == s.kCols
    ensures InPlace(m, blk, s) ==
      if s.StopAt(blk, 0) < MaxIterations && s.iterate(blk, s.StopAt(blk, 0)).Throws?
      then (Err(s.iterate(blk, s.StopAt(blk, 0)).msg), s.iterate(blk, s.StopAt(blk, 0)).left)
      else (Ok(s.StopAt(blk, 0)), s.solution(blk, s.StopAt(blk, 0)))
  {
    RunStopsAt(s, blk, 0);
  }

  /** The loop `for (iter = 0; iter < 1000; iter++)` of the inner solver:
      it stops at the first iteration that converges or throws, or at the
      bound; `thrown` says whether it ended by throwing. */
  method Iterations(s: Solver, blk: Block) returns (iter: nat, thrown: bool)
    ensures iter == s.StopAt(blk, 0)
    ensures thrown <==> iter < MaxIterations && s.iterate(blk, iter).Throws?
  {
    ghost var n := s.StopAt(blk, 0);
    iter := 0;
    while iter < MaxIterations
      invariant iter <= n && s.StopAt(blk, iter) == n
      decreases MaxIterations - iter
    {
      var step := s.iterate(blk, iter);
      if step.Throws? {
        return iter, true;
      }
      if step.Converged? {
        break;
      }
      iter := iter + 1;
    }
    thrown := false;
  }

  /** The shapes `Fits` promises, for one block and iteration. */
  lemma FitsAt(s: Solver, width: nat, blk: Block, k: nat)
    requires s.Fits(width)
    ensures |s.solution(blk, k)| == blk.nrows && Shaped(s.solution(blk, k), width)
    ensures s.iterate(blk, k).Throws? ==> |s.iterate(blk, k).left| == blk.nrows && Shaped(s.iterate(blk, k).left, width)
  {
  }

  /** `X` takes the value `rows`. */
  method Fill(xb: array2<real>, rows: Mat)
    requires |rows| == xb.Length0 && Shaped(rows, xb.Length1)
    modifies xb
    ensures MatOf(xb) == rows
  {
    ghost var before := MatOf(xb);
    WriteBlock(xb, Block(0, xb.Length0), rows);
    OverwriteAll(before, rows);
  }

  lemma OverwriteAll(m: Mat, rows: Mat)
    requires |rows| == |m|
    ensures Overwrite(m, Block(0, |m|), rows) == rows
  {
  }

  /** The loop over blocks: block `i` has `blocksize` rows, or all remaining
      rows once it reaches within `excess` rows of the end; `i` advances by
      `blocksize` either way. */
  method SolveInBlocks(x: array2<real>, s: Solver, blocksize: nat, excess: nat) returns (r: Result<nat>)
    requires 1 <= blocksize && s.Fits(x.Length1)
    modifies x
    ensures (r, MatOf(x)) == SolveSeq(old(MatOf(x)), BlocksFrom(0, x.Length0, blocksize, excess), s, 0)
  {
    var rows := x.Length0;
    ghost var outcome := SolveSeq(MatOf(x), BlocksFrom(0, rows, blocksize, excess), s, 0);
    var maxIter: nat := 0;
    var i: nat := 0;
    while i < rows
      invariant SolveSeq(MatOf(x), BlocksFrom(i, rows, blocksize, excess), s, maxIter) == outcome
      decreases rows - i
    {
      var nrows := blocksize;
      if i + blocksize + excess >= rows {
        nrows := rows - i;
      }
      var blk := Block(i, nrows);
      BlocksFromUnfold(i, rows, blocksize, excess, blk);
      var res := SolveFirst(x, s, blk, BlocksFrom(i, rows, blocksize, excess), BlocksFrom(i + blocksize, rows, blocksize, excess), maxIter);
      if res.Err? {
        return Err(res.msg);
      }
      maxIter := Max(res.value, maxIter);
      i := i + blocksize;
    }
    r := Ok(maxIter);
  }

  /** One turn of a loop over blocks, stated on the fold: solving `blk`, the
      first of `blocks`, either ends the fold with its error or leaves the
      fold over `rest` to do. */
  method SolveFirst(x: array2<real>, s: Solver, blk: Block, ghost blocks: seq<Block>, ghost rest: seq<Block>, maxIter: nat)
    returns (res: Result<nat>)
    requires s.Fits(x.Length1) && blk.start + blk.nrows <= x.Length0
    requires |blocks| > 0 && blocks[0] == blk && blocks[1..] == rest
    modifies x
    ensures res.Err? ==> SolveSeq(old(MatOf(x)), blocks, s, maxIter) == (Err(res.msg), MatOf(x))
    ensures res.Ok? ==> SolveSeq(old(MatOf(x)), blocks, s, maxIter) == SolveSeq(MatOf(x), rest, s, Max(res.value, maxIter))
  {
    ghost var before := MatOf(x);
    res := SolveBlock(x, s, blk);
    SolveSeqHead(before, blocks, blk, rest, s, maxIter);
  }

  /** The fold after its first block: the error of that block, or the fold
      over the rest from the block's solution. */
  lemma SolveSeqHead(m: Mat, blocks: seq<Block>, blk: Block, rest: seq<Block>, s: Solver, maxIter: nat)
    requires |blocks| > 0 && blocks[0] == blk && blocks[1..] == rest
    ensures Count(s.Run(blk)).Err? ==> SolveSeq(m, blocks, s, maxIter) == (Err(Count(s.Run(blk)).msg), m)
    ensures Count(s.Run(blk)).Ok? ==>
      SolveSeq(m, blocks, s, maxIter) == SolveSeq(Step(m, blk, s), rest, s, Max(Count(s.Run(blk)).value, maxIter))
  {
  }

  /** One step of the loop: the blocks still to visit from row `i` are `blk`
      followed by those from row `i + blocksize`. */
  lemma BlocksFromUnfold(i: nat, rows: nat, blocksize: nat, excess: nat, blk: Block)
    requires 1 <= blocksize && i < rows
    requires blk == Block(i, if i + blocksize + excess >= rows then rows - i else blocksize)
    ensures |BlocksFrom(i, rows, blocksize, excess)| > 0
    ensures BlocksFrom(i, rows, blocksize, excess)[0] == blk
    ensures BlocksFrom(i, rows, blocksize, excess)[1..] == BlocksFrom(i + blocksize, rows, blocksize, excess)
  {
  }

  /** One block of the loop: `Bblock` is solved into a fresh `Xblock` of
      the block's shape, which is copied into the block's rows of `X` once
      the solve returns; a solve that throws leaves `X` as it was. */
  method SolveBlock(x: array2<real>, s: Solver, blk: Block) returns (res: Result<nat>)
    requires s.Fits(x.Length1) && blk.start + blk.nrows <= x.Length0
    modifies x
    ensures res == Count(s.Run(blk))
    ensures MatOf(x) == Step(old(MatOf(x)), blk, s)
  {
    var xblock := new real[blk.nrows, x.Length1];
    res := InnerSolve(xblock, s, blk);
    if res.Ok? {
      WriteBlock(x, blk, MatOf(xblock));
    }
  }

  /** Solving one more block extends both the copied solutions and the
      iteration maximum. */
  lemma SolvedOneMore(m: Mat, done: seq<Block>, blk: Block, s: Solver, sol: Solution)
    requires s.Run(blk) == Ok(sol)
    ensures Apply(m, done + [blk], s) == Overwrite(Apply(m, done, s), blk, sol.rows)
    ensures MaxIters(done + [blk], s) == Max(sol.iters, MaxIters(done, s))
  {
    assert (done + [blk])[..|done|] == done;
  }

  /** The first block the solver rejects ends the loop with the solutions
      of the blocks before it copied in. */
  lemma FailsAt(blocks: seq<Block>, done: seq<Block>, blk: Block, rest: seq<Block>, s: Solver, m: Mat, msg: string)
    requires blocks == done + ([blk] + rest)
    requires forall q :: 0 <= q < |done| ==> s.Run(done[q]).Ok?
    requires s.Run(blk) == Err(msg)
    ensures SolvedInOrder(Err(msg), blocks, s, m, Apply(m, done, s))
  {
    assert blocks[|done|] == blk && blocks[..|done|] == done;
    assert FirstFailure(blocks, s, |done|);
  }

  // ------------------------------------------------- the corrected outer loop

  /** `solve_blockcg` as evidently intended: the loop stops after the block
      that takes the remaining rows, so every row is solved once (see
      `IntendedBlocksPartition`). */
  method SolveBlockcgIntended(x: array2<real>, s: Solver, b: array2<real>, blocksize: nat, excess: nat) returns (r: Result<nat>)
    requires 1 <= blocksize
    requires x.Length0 == b.Length0 && s.bCols == b.Length1 && s.Fits(x.Length1)
    modifies x
    ensures b.Length0 <= excess + blocksize ==> (r, MatOf(x)) == InPlace(old(MatOf(x)), Block(0, b.Length0), s)
    ensures b.Length0 > excess + blocksize ==> SolvedInOrder(r, IntendedBlocks(b.Length0, blocksize, excess), s, old(MatOf(x)), MatOf(x))
    ensures r.Ok? ==> SolvedInOrder(r, IntendedBlocks(b.Length0, blocksize, excess), s, old(MatOf(x)), MatOf(x))
  {
    ghost var start := MatOf(x);
    if b.Length0 <= excess + blocksize {
      r := InnerSolve(x, s, Block(0, b.Length0));
      if r.Ok? {
        WholeInOrder(start, s, x.Length1, r, MatOf(x));
      }
    } else {
      r := SolveInBlocksOnce(x, s, blocksize, excess);
      ghost var blocks := IntendedBlocks(b.Length0, blocksize, excess);
      SolveSeqInOrder(start, [], blocks, s);
      assert [] + blocks == blocks;
    }
  }

  /** The corrected loop: the same blocks as `SolveInBlocks` up to and
      including the first one that reaches the end, and no more. */
  method SolveInBlocksOnce(x: array2<real>, s: Solver, blocksize: nat, excess: nat) returns (r: Result<nat>)
    requires 1 <= blocksize && s.Fits(x.Length1)
    modifies x
    ensures (r, MatOf(x)) == SolveSeq(old(MatOf(x)), IntendedBlocksFrom(0, x.Length0, blocksize, excess), s, 0)
  {
    var rows := x.Length0;
    ghost var outcome := SolveSeq(MatOf(x), IntendedBlocksFrom(0, rows, blocksize, excess), s, 0);
    var maxIter: nat := 0;
    var i: nat := 0;
    while i < rows
      invariant SolveSeq(MatOf(x), IntendedBlocksFrom(i, rows, blocksize, excess), s, maxIter) == outcome
      decreases rows - i
    {
      var last := i + blocksize + excess >= rows;
      var blk := Block(i, if last then rows - i else blocksize);
      IntendedBlocksFromUnfold(i, rows, blocksize, excess, blk);
      ghost var rest := if last then [] else IntendedBlocksFrom(i + blocksize, rows, blocksize, excess);
      var res := SolveFirst(x, s, blk, IntendedBlocksFrom(i, rows, blocksize, excess), rest, maxIter);
      if res.Err? {
        return Err(res.msg);
      }
      maxIter := Max(res.value, maxIter);
      if last {
        break;
      }
      i := i + blocksize;
    }
    r := Ok(maxIter);
  }

  /** One step of the corrected loop: `blk`, then the blocks from row
      `i + blocksize` unless `blk` already reaches the end. */
  lemma IntendedBlocksFromUnfold(i: nat, rows: nat, blocksize: nat, excess: nat, blk: Block)
    requires 1 <= blocksize && i < rows
    requires blk == Block(i, if i + blocksize + excess >= rows then rows - i else blocksize)
    ensures |IntendedBlocksFrom(i, rows, blocksize, excess)| > 0
    ensures IntendedBlocksFrom(i, rows, blocksize, excess)[0] == blk
    ensures IntendedBlocksFrom(i, rows, blocksize, excess)[1..] ==
      if i + blocksize + excess >= rows then [] else IntendedBlocksFrom(i + blocksize, rows, blocksize, excess)
  {
  }
}
