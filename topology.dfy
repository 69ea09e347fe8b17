/** The process topology: a rank's place in the px x py process grid and its
    four cardinal neighbours (hybridMPI.c, the start of `main`).

    Ranks are laid out row by row: `rank == ry * px + rx`. The program
    computes `rx = rank % px` and `ry = rank / px` in C; with a non-negative
    rank and a positive width C's and Dafny's operators agree
    (`CArith.QuotRemAgree`). */
module Topology {
  import opened CArith

  /** A neighbour is another rank, or `None` where the process grid ends
      (the runtime's `MPI_PROC_NULL`). */
  datatype Neighbor = Rank(r: int) | None

  datatype Direction = North | South | East | West

  function Opposite(d: Direction): Direction
  {
    match d
    case North => South
    case South => North
    case East => West
    case West => East
  }

  /** The process grid of `px` columns and `py` rows. */
  predicate ValidGrid(px: int, py: int)
  {
    px >= 1 && py >= 1
  }

  predicate ValidRank(rank: int, px: int, py: int)
  {
    0 <= rank < px * py
  }

  /** Coordinates of `rank`: column `rx` and row `ry`. */
  function Coords(rank: int, px: int, py: int): (c: (int, int))
    requires ValidGrid(px, py) && ValidRank(rank, px, py)
    ensures 0 <= c.0 < px && 0 <= c.1 < py
    ensures c.1 * px + c.0 == rank
    ensures c == (Rem(rank, px), Quot(rank, px))
  {
    QuotRemAgree(rank, px);
    var rx, ry := rank % px, rank / px;
    assert ry * px + rx == rank;
    assert 0 <= ry by {
      if ry < 0 {
        MulMonotone(ry, -1, px);
        assert false;
      }
    }
    assert ry < py by {
      if ry >= py {
        MulMonotone(py, ry, px);
        assert false;
      }
    }
    (rx, ry)
  }

  /** The rank at column `rx`, row `ry`. */
  function RankAt(rx: int, ry: int, px: int): int
  {
    ry * px + rx
  }

  /** Coordinates and rank are inverse to each other. */
  lemma CoordsOfRankAt(rx: int, ry: int, px: int, py: int)
    requires ValidGrid(px, py) && 0 <= rx < px && 0 <= ry < py
    ensures ValidRank(RankAt(rx, ry, px), px, py)
    ensures Coords(RankAt(rx, ry, px), px, py) == (rx, ry)
  {
    MulMonotone(ry, py - 1, px);
    assert RankAt(rx, ry, px) < (py - 1) * px + px == py * px;
    DivModUnique(RankAt(rx, ry, px), px, ry, rx);
  }

  /** The neighbour in direction `d`, computed as the program does: the rank
      of the adjacent cell of the process grid, replaced by `None` when that
      cell lies outside the grid. North is the row above (ry - 1), south the
      row below, west the column to the left (rx - 1), east the one to the
      right. */
  function NeighborOf(rank: int, px: int, py: int, d: Direction): Neighbor
    requires ValidGrid(px, py) && ValidRank(rank, px, py)
  {
    var (rx, ry) := Coords(rank, px, py);
    match d
    case North => if ry - 1 < 0 then None else Rank((ry - 1) * px + rx)
    case South => if ry + 1 >= py then None else Rank((ry + 1) * px + rx)
    case West => if rx - 1 < 0 then None else Rank(ry * px + rx - 1)
    case East => if rx + 1 >= px then None else Rank(ry * px + rx + 1)
  }

  /** Whether `rank` lies on the edge of the process grid facing `d`. */
  predicate OnEdge(rank: int, px: int, py: int, d: Direction)
    requires ValidGrid(px, py) && ValidRank(rank, px, py)
  {
    var (rx, ry) := Coords(rank, px, py);
    match d
    case North => ry == 0
    case South => ry == py - 1
    case West => rx == 0
    case East => rx == px - 1
  }

  /** The coordinates one step from `(rx, ry)` in direction `d`. */
  function Step(c: (int, int), d: Direction): (int, int)
  {
    match d
    case North => (c.0, c.1 - 1)
    case South => (c.0, c.1 + 1)
    case West => (c.0 - 1, c.1)
    case East => (c.0 + 1, c.1)
  }

  /** A neighbour is `None` exactly on the matching edge; otherwise it is a
      rank of the grid whose coordinates are one step away in direction `d`. */
  lemma NeighborOnEdge(rank: int, px: int, py: int, d: Direction)
    requires ValidGrid(px, py) && ValidRank(rank, px, py)
    ensures NeighborOf(rank, px, py, d) == None <==> OnEdge(rank, px, py, d)
    ensures NeighborOf(rank, px, py, d).Rank? ==>
      var b := NeighborOf(rank, px, py, d).r;
      ValidRank(b, px, py) && b != rank && Coords(b, px, py) == Step(Coords(rank, px, py), d)
  {
    var (rx, ry) := Coords(rank, px, py);
    var (sx, sy) := Step((rx, ry), d);
    if NeighborOf(rank, px, py, d).Rank? {
      assert NeighborOf(rank, px, py, d).r == RankAt(sx, sy, px);
      CoordsOfRankAt(sx, sy, px, py);
    }
  }

  /** Neighbour relations are symmetric: B is A's neighbour in direction `d`
      exactly when A is B's neighbour in the opposite direction (south of A
      is B iff north of B is A; east of A is B iff west of B is A). */
  lemma NeighborSymmetric(a: int, b: int, px: int, py: int, d: Direction)
    requires ValidGrid(px, py) && ValidRank(a, px, py) && ValidRank(b, px, py)
    ensures NeighborOf(a, px, py, d) == Rank(b) <==> NeighborOf(b, px, py, Opposite(d)) == Rank(a)
  {
    NeighborOnEdge(a, px, py, d);
    NeighborOnEdge(b, px, py, Opposite(d));
    var ca, cb := Coords(a, px, py), Coords(b, px, py);
    if NeighborOf(a, px, py, d) == Rank(b) {
      assert cb == Step(ca, d);
      assert Step(cb, Opposite(d)) == ca;
      assert !OnEdge(b, px, py, Opposite(d));
      var c := NeighborOf(b, px, py, Opposite(d)).r;
      assert Coords(c, px, py) == ca;
      assert c == a;
    }
    if NeighborOf(b, px, py, Opposite(d)) == Rank(a) {
      assert ca == Step(cb, Opposite(d));
      assert Step(ca, d) == cb;
      assert !OnEdge(a, px, py, d);
      var c := NeighborOf(a, px, py, d).r;
      assert Coords(c, px, py) == cb;
      assert c == b;
    }
  }

  /** The neighbours in two different directions are different ranks. All
      messages of the exchange carry the same tag, so this is what makes
      each receive match the one send meant for it. */
  lemma NeighborsDistinct(rank: int, px: int, py: int, d1: Direction, d2: Direction)
    requires ValidGrid(px, py) && ValidRank(rank, px, py) && d1 != d2
    requires NeighborOf(rank, px, py, d1).Rank? && NeighborOf(rank, px, py, d2).Rank?
    ensures NeighborOf(rank, px, py, d1).r != NeighborOf(rank, px, py, d2).r
  {
    NeighborOnEdge(rank, px, py, d1);
    NeighborOnEdge(rank, px, py, d2);
  }
}
