/** The block decomposition of the global n x n grid (hybridMPI.c, `main`
    after the neighbours): rank (rx, ry) owns the columns
    [rx * bx, rx * bx + bx) and the rows [ry * by, ry * by + by), where
    bx = n / px and by = n / py (`width` and `height` here, since `by` is a
    Dafny keyword). */
module Partition {
  import opened CArith
  import opened Topology

  /** The block a process owns: its interior width and height (the
      program's `bx` and `by`) and its offset into the global grid. */
  datatype Block = Block(width: int, height: int, offx: int, offy: int)

  /** What the decomposition needs of its inputs, guaranteed by the
      validated start-up parameters (`Settings.WellFormed`). */
  predicate Divisible(n: int, px: int, py: int)
  {
    n >= 1 && ValidGrid(px, py) && n % px == 0 && n % py == 0
  }

  /** The block of the process at coordinates (rx, ry). */
  function Decompose(n: int, px: int, py: int, rx: int, ry: int): Block
    requires px >= 1 && py >= 1
  {
    var w := n / px;
    var h := n / py;
    Block(w, h, rx * w, ry * h)
  }

  function BlockOf(n: int, px: int, py: int, rank: int): Block
    requires ValidGrid(px, py) && ValidRank(rank, px, py)
  {
    var (rx, ry) := Coords(rank, px, py);
    Decompose(n, px, py, rx, ry)
  }

  /** Whether global cell (x, y) lies in block `b`. */
  predicate InBlock(b: Block, x: int, y: int)
  {
    b.offx <= x < b.offx + b.width && b.offy <= y < b.offy + b.height
  }

  /** `x` lies in the `r`-th interval of width `w` exactly when `x / w == r`. */
  lemma IntervalIffQuotient(x: int, w: int, r: int)
    requires w >= 1 && x >= 0
    ensures r * w <= x < r * w + w <==> x / w == r
  {
    if r * w <= x < r * w + w {
      DivModUnique(x, w, r, x - r * w);
    }
  }

  /** Every block is non-empty and lies inside the global grid. */
  lemma BlockInGrid(n: int, px: int, py: int, rank: int)
    requires Divisible(n, px, py) && ValidRank(rank, px, py)
    ensures var b := BlockOf(n, px, py, rank);
      && b.width >= 1 && b.height >= 1
      && 0 <= b.offx && b.offx + b.width <= n
      && 0 <= b.offy && b.offy + b.height <= n
  {
    var (rx, ry) := Coords(rank, px, py);
    var b := BlockOf(n, px, py, rank);
    assert n == b.width * px && n == b.height * py;
    assert b.width >= 1 by {
      if b.width <= 0 { MulMonotone(b.width, 0, px); }
    }
    assert b.height >= 1 by {
      if b.height <= 0 { MulMonotone(b.height, 0, py); }
    }
    MulMonotone(0, rx, b.width);
    MulMonotone(rx + 1, px, b.width);
    MulMonotone(0, ry, b.height);
    MulMonotone(ry + 1, py, b.height);
  }

  /** The rank owning global cell (x, y). */
  function Owner(n: int, px: int, py: int, x: int, y: int): (rank: int)
    requires Divisible(n, px, py) && 0 <= x < n && 0 <= y < n
    ensures ValidRank(rank, px, py) && InBlock(BlockOf(n, px, py, rank), x, y)
  {
    var w, h := n / px, n / py;
    var rx, ry := x / w, y / h;
    assert 0 <= rx < px by {
      assert n == w * px;
      IntervalIffQuotient(x, w, rx);
      if rx >= px { MulMonotone(px, rx, w); }
    }
    assert 0 <= ry < py by {
      assert n == h * py;
      IntervalIffQuotient(y, h, ry);
      if ry >= py { MulMonotone(py, ry, h); }
    }
    CoordsOfRankAt(rx, ry, px, py);
    IntervalIffQuotient(x, w, rx);
    IntervalIffQuotient(y, h, ry);
    RankAt(rx, ry, px)
  }

  /** The blocks are pairwise disjoint: a cell in the blocks of two ranks
      means the ranks are the same. */
  lemma BlocksDisjoint(n: int, px: int, py: int, r1: int, r2: int, x: int, y: int)
    requires Divisible(n, px, py) && ValidRank(r1, px, py) && ValidRank(r2, px, py)
    requires InBlock(BlockOf(n, px, py, r1), x, y) && InBlock(BlockOf(n, px, py, r2), x, y)
    ensures r1 == r2
  {
    var b1, b2 := BlockOf(n, px, py, r1), BlockOf(n, px, py, r2);
    var c1, c2 := Coords(r1, px, py), Coords(r2, px, py);
    BlockInGrid(n, px, py, r1);
    IntervalIffQuotient(x, b1.width, c1.0);
    IntervalIffQuotient(x, b1.width, c2.0);
    IntervalIffQuotient(y, b1.height, c1.1);
    IntervalIffQuotient(y, b1.height, c2.1);
  }

  /** Whether some rank's block holds global cell (x, y). */
  ghost predicate Covered(n: int, px: int, py: int, x: int, y: int)
    requires ValidGrid(px, py)
  {
    exists rank :: ValidRank(rank, px, py) && InBlock(BlockOf(n, px, py, rank), x, y)
  }

  /** The blocks of all ranks tile the global grid: every cell of
      [0, n) x [0, n) lies in the block of exactly one rank, and no block
      reaches outside it. */
  lemma Tiling(n: int, px: int, py: int)
    requires Divisible(n, px, py)
    ensures forall x, y | 0 <= x < n && 0 <= y < n :: Covered(n, px, py, x, y)
    ensures forall r1, r2, x, y |
      ValidRank(r1, px, py) && ValidRank(r2, px, py) &&
      InBlock(BlockOf(n, px, py, r1), x, y) && InBlock(BlockOf(n, px, py, r2), x, y) :: r1 == r2
    ensures forall rank, x, y | ValidRank(rank, px, py) && InBlock(BlockOf(n, px, py, rank), x, y) ::
      0 <= x < n && 0 <= y < n
  {
    forall x, y | 0 <= x < n && 0 <= y < n
      ensures Covered(n, px, py, x, y)
    {
      var rank := Owner(n, px, py, x, y);
    }
    forall r1, r2, x, y |
      ValidRank(r1, px, py) && ValidRank(r2, px, py) &&
      InBlock(BlockOf(n, px, py, r1), x, y) && InBlock(BlockOf(n, px, py, r2), x, y)
      ensures r1 == r2
    {
      BlocksDisjoint(n, px, py, r1, r2, x, y);
    }
    forall rank, x, y | ValidRank(rank, px, py) && InBlock(BlockOf(n, px, py, rank), x, y)
      ensures 0 <= x < n && 0 <= y < n
    {
      BlockInGrid(n, px, py, rank);
    }
  }
}
