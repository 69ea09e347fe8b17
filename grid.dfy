/** Geometry of a process's local grid (hybridMPI.c): an interior of
    w x h cells (the program's `bx` x `by`) surrounded by a one-cell halo,
    stored row by row in a flat array of (w + 2) * (h + 2) cells, and the
    eight regions of it that the halo exchange sends from and receives
    into. */
module Grid {
  import opened CArith
  import opened Topology

  /** Cells in the flat array of a local grid. */
  function Size(w: nat, h: nat): nat
  {
    (w + 2) * (h + 2)
  }

  /** The program's `ind(i, j)`: the flat index of column `i`, row `j`. */
  function Ind(w: int, i: int, j: int): int
  {
    j * (w + 2) + i
  }

  /** Column and row of a flat index. */
  function Col(w: nat, k: int): int
  {
    k % (w + 2)
  }

  function Row(w: nat, k: int): int
  {
    k / (w + 2)
  }

  predicate InGrid(w: nat, h: nat, i: int, j: int)
  {
    0 <= i < w + 2 && 0 <= j < h + 2
  }

  /** The cells the stencil advances: columns 1..w, rows 1..h. */
  predicate Interior(w: nat, h: nat, i: int, j: int)
  {
    1 <= i <= w && 1 <= j <= h
  }

  /** The four corner cells, which no exchange reads or writes. */
  predicate Corner(w: nat, h: nat, i: int, j: int)
  {
    (i == 0 || i == w + 1) && (j == 0 || j == h + 1)
  }

  /** Flat-index forms of the above. */
  predicate InteriorIndex(w: nat, h: nat, k: int)
  {
    0 <= k && Interior(w, h, Col(w, k), Row(w, k))
  }

  predicate HaloIndex(w: nat, h: nat, k: int)
  {
    0 <= k < Size(w, h) && !Interior(w, h, Col(w, k), Row(w, k))
  }

  predicate CornerIndex(w: nat, h: nat, k: int)
  {
    0 <= k && Corner(w, h, Col(w, k), Row(w, k))
  }

  /** A flat index decodes to the column and row it was built from. */
  lemma IndDecode(w: nat, i: int, j: int)
    requires 0 <= i < w + 2 && j >= 0
    ensures Ind(w, i, j) >= 0
    ensures Col(w, Ind(w, i, j)) == i && Row(w, Ind(w, i, j)) == j
  {
    MulMonotone(0, j, w + 2);
    DivModUnique(Ind(w, i, j), w + 2, j, i);
  }

  /** Every cell of the local grid has an index in the flat array. */
  lemma IndInRange(w: nat, h: nat, i: int, j: int)
    requires InGrid(w, h, i, j)
    ensures 0 <= Ind(w, i, j) < Size(w, h)
  {
    MulMonotone(0, j, w + 2);
    MulMonotone(j, h + 1, w + 2);
  }

  /** Every index of the flat array is the index of the cell it decodes to. */
  lemma IndOnto(w: nat, h: nat, k: int)
    requires 0 <= k < Size(w, h)
    ensures InGrid(w, h, Col(w, k), Row(w, k)) && Ind(w, Col(w, k), Row(w, k)) == k
  {
    if Row(w, k) >= h + 2 {
      MulMonotone(h + 2, Row(w, k), w + 2);
    }
  }

  /** `ind` maps the cells of the local grid one-to-one onto the indices of
      its flat array [0, (w + 2) * (h + 2)). */
  lemma IndBijective(w: nat, h: nat)
    ensures forall i, j | InGrid(w, h, i, j) :: 0 <= Ind(w, i, j) < Size(w, h)
    ensures forall i1, j1, i2, j2 | InGrid(w, h, i1, j1) && InGrid(w, h, i2, j2) ::
      Ind(w, i1, j1) == Ind(w, i2, j2) ==> i1 == i2 && j1 == j2
    ensures forall k | 0 <= k < Size(w, h) ::
      InGrid(w, h, Col(w, k), Row(w, k)) && Ind(w, Col(w, k), Row(w, k)) == k
  {
    forall i, j | InGrid(w, h, i, j)
      ensures 0 <= Ind(w, i, j) < Size(w, h)
    {
      IndInRange(w, h, i, j);
    }
    forall i1, j1, i2, j2 | InGrid(w, h, i1, j1) && InGrid(w, h, i2, j2) && Ind(w, i1, j1) == Ind(w, i2, j2)
      ensures i1 == i2 && j1 == j2
    {
      IndDecode(w, i1, j1);
      IndDecode(w, i2, j2);
    }
    forall k | 0 <= k < Size(w, h)
      ensures InGrid(w, h, Col(w, k), Row(w, k)) && Ind(w, Col(w, k), Row(w, k)) == k
    {
      IndOnto(w, h, k);
    }
  }

  /** The two MPI datatypes of the exchange: `Contiguous(count)` is
      `MPI_Type_contiguous`, `count` adjacent cells; `Vector(count, stride)`
      is `MPI_Type_vector` with block length 1, `count` cells `stride`
      apart. */
  datatype Layout = Contiguous(count: nat) | Vector(count: nat, stride: int)

  /** The north-south type: one row of the interior, `bx` cells. */
  function NorthSouthType(w: nat): Layout
  {
    Contiguous(w)
  }

  /** The east-west type: one column of the interior, `by` cells a padded
      row (`bx + 2`) apart. */
  function EastWestType(w: nat, h: nat): Layout
  {
    Vector(h, w + 2)
  }

  /** The flat indices a message of layout `t` starting at `start` covers. */
  function Region(start: int, t: Layout): seq<int>
  {
    match t
    case Contiguous(c) => seq(c, k => start + k)
    case Vector(c, s) => seq(c, k => start + k * s)
  }

  function LayoutOf(w: nat, h: nat, d: Direction): Layout
  {
    if d == North || d == South then NorthSouthType(w) else EastWestType(w, h)
  }

  /** Start of the boundary sent towards the neighbour in direction `d`. */
  function SendStart(w: nat, h: nat, d: Direction): int
  {
    match d
    case North => Ind(w, 1, 1)
    case South => Ind(w, 1, h)
    case East => Ind(w, w, 1)
    case West => Ind(w, 1, 1)
  }

  /** Start of the halo received from the neighbour in direction `d`. */
  function RecvStart(w: nat, h: nat, d: Direction): int
  {
    match d
    case North => Ind(w, 1, 0)
    case South => Ind(w, 1, h + 1)
    case East => Ind(w, w + 1, 1)
    case West => Ind(w, 0, 1)
  }

  function SendRegion(w: nat, h: nat, d: Direction): seq<int>
  {
    Region(SendStart(w, h, d), LayoutOf(w, h, d))
  }

  function RecvRegion(w: nat, h: nat, d: Direction): seq<int>
  {
    Region(RecvStart(w, h, d), LayoutOf(w, h, d))
  }

  /** Cells along the edge facing `d`. */
  function EdgeLength(w: nat, h: nat, d: Direction): nat
  {
    if d == North || d == South then w else h
  }

  /** The `k`-th cell sent towards `d`: the outermost interior row or
      column on that side. */
  function SendCell(w: nat, h: nat, d: Direction, k: int): (int, int)
  {
    match d
    case North => (1 + k, 1)
    case South => (1 + k, h)
    case East => (w, 1 + k)
    case West => (1, 1 + k)
  }

  /** The `k`-th cell received from `d`: the halo row or column on that
      side, without its corners. */
  function RecvCell(w: nat, h: nat, d: Direction, k: int): (int, int)
  {
    match d
    case North => (1 + k, 0)
    case South => (1 + k, h + 1)
    case East => (w + 1, 1 + k)
    case West => (0, 1 + k)
  }

  /** The regions the program's start offsets and datatypes address are,
      cell for cell, the boundary rows and columns described by `SendCell`
      and `RecvCell`. */
  lemma RegionCells(w: nat, h: nat, d: Direction, k: int)
    requires 0 <= k < EdgeLength(w, h, d)
    ensures |SendRegion(w, h, d)| == EdgeLength(w, h, d) == |RecvRegion(w, h, d)|
    ensures SendRegion(w, h, d)[k] == Ind(w, SendCell(w, h, d, k).0, SendCell(w, h, d, k).1)
    ensures RecvRegion(w, h, d)[k] == Ind(w, RecvCell(w, h, d, k).0, RecvCell(w, h, d, k).1)
  {
    if d == East || d == West {
      assert (1 + k) * (w + 2) == (w + 2) + k * (w + 2);
    }
  }

  /** Every index of a send or receive region addresses a cell of the flat
      array. */
  lemma RegionsInRange(w: nat, h: nat, d: Direction)
    ensures |SendRegion(w, h, d)| == EdgeLength(w, h, d) == |RecvRegion(w, h, d)|
    ensures forall i | 0 <= i < EdgeLength(w, h, d) ::
      0 <= SendRegion(w, h, d)[i] < Size(w, h) && 0 <= RecvRegion(w, h, d)[i] < Size(w, h)
  {
    forall i | 0 <= i < EdgeLength(w, h, d)
      ensures 0 <= SendRegion(w, h, d)[i] < Size(w, h) && 0 <= RecvRegion(w, h, d)[i] < Size(w, h)
    {
      RegionCells(w, h, d, i);
      var sc, rc := SendCell(w, h, d, i), RecvCell(w, h, d, i);
      IndInRange(w, h, sc.0, sc.1);
      IndInRange(w, h, rc.0, rc.1);
    }
    if EdgeLength(w, h, d) == 0 {
      RegionShapes(w, h, d);
    }
  }

  /** Every cell sent lies in the interior (for a non-empty interior). */
  lemma SendRegionInterior(w: nat, h: nat, d: Direction)
    requires w >= 1 && h >= 1
    ensures |SendRegion(w, h, d)| == EdgeLength(w, h, d)
    ensures forall k <- SendRegion(w, h, d) :: k < Size(w, h) && InteriorIndex(w, h, k)
  {
    RegionCells(w, h, d, 0);
    IndBijective(w, h);
    forall k <- SendRegion(w, h, d)
      ensures k < Size(w, h) && InteriorIndex(w, h, k)
    {
      var m :| 0 <= m < |SendRegion(w, h, d)| && SendRegion(w, h, d)[m] == k;
      RegionCells(w, h, d, m);
      var c := SendCell(w, h, d, m);
      IndDecode(w, c.0, c.1);
    }
  }

  /** Every cell received lies in the halo and is not a corner. */
  lemma RecvRegionHalo(w: nat, h: nat, d: Direction)
    ensures |RecvRegion(w, h, d)| == EdgeLength(w, h, d)
    ensures forall k <- RecvRegion(w, h, d) :: HaloIndex(w, h, k) && !CornerIndex(w, h, k)
  {
    IndBijective(w, h);
    if EdgeLength(w, h, d) > 0 {
      RegionCells(w, h, d, 0);
    }
    forall k <- RecvRegion(w, h, d)
      ensures HaloIndex(w, h, k) && !CornerIndex(w, h, k)
    {
      var m :| 0 <= m < |RecvRegion(w, h, d)| && RecvRegion(w, h, d)[m] == k;
      RegionCells(w, h, d, m);
      var c := RecvCell(w, h, d, m);
      IndDecode(w, c.0, c.1);
    }
  }

  /** The `k`-th cell of a receive region, decoded. */
  lemma RecvDecode(w: nat, h: nat, d: Direction, m: int)
    requires 0 <= m < EdgeLength(w, h, d)
    ensures |RecvRegion(w, h, d)| == EdgeLength(w, h, d)
    ensures var k := RecvRegion(w, h, d)[m];
      k >= 0 && (Col(w, k), Row(w, k)) == RecvCell(w, h, d, m)
  {
    RegionCells(w, h, d, m);
    var c := RecvCell(w, h, d, m);
    IndDecode(w, c.0, c.1);
  }

  /** The four receive regions are pairwise disjoint. */
  lemma RecvRegionsDisjoint(w: nat, h: nat, d1: Direction, d2: Direction)
    requires d1 != d2
    ensures forall k | k in RecvRegion(w, h, d1) :: k !in RecvRegion(w, h, d2)
  {
    forall k | k in RecvRegion(w, h, d1) && k in RecvRegion(w, h, d2)
      ensures false
    {
      if EdgeLength(w, h, d1) > 0 { RecvDecode(w, h, d1, 0); }
      if EdgeLength(w, h, d2) > 0 { RecvDecode(w, h, d2, 0); }
      var m1 :| 0 <= m1 < |RecvRegion(w, h, d1)| && RecvRegion(w, h, d1)[m1] == k;
      var m2 :| 0 <= m2 < |RecvRegion(w, h, d2)| && RecvRegion(w, h, d2)[m2] == k;
      RecvDecode(w, h, d1, m1);
      RecvDecode(w, h, d2, m2);
    }
  }

  /** Together the receive regions cover the halo except its corners. */
  lemma RecvRegionsCoverHalo(w: nat, h: nat, k: int)
    requires HaloIndex(w, h, k) && !CornerIndex(w, h, k)
    ensures exists d :: k in RecvRegion(w, h, d)
  {
    IndBijective(w, h);
    var i, j := Col(w, k), Row(w, k);
    assert InGrid(w, h, i, j) && Ind(w, i, j) == k;
    var (d, m) :=
      if j == 0 then (North, i - 1)
      else if j == h + 1 then (South, i - 1)
      else if i == w + 1 then (East, j - 1)
      else (West, j - 1);
    RegionCells(w, h, d, m);
    assert RecvRegion(w, h, d)[m] == k;
  }

  /** A region whose cells are all different. */
  ghost predicate Distinct(s: seq<int>)
  {
    forall a, b | 0 <= a < b < |s| :: s[a] != s[b]
  }

  /** Send and receive regions never name a cell twice, and what one
      process sends towards `d` has the layout and length of what its
      neighbour there receives from the opposite side. */
  lemma RegionShapes(w: nat, h: nat, d: Direction)
    ensures LayoutOf(w, h, d) == LayoutOf(w, h, Opposite(d))
    ensures |SendRegion(w, h, d)| == |RecvRegion(w, h, Opposite(d))| == EdgeLength(w, h, d)
    ensures Distinct(SendRegion(w, h, d)) && Distinct(RecvRegion(w, h, d))
  {
    forall a, b | 0 <= a < b < EdgeLength(w, h, d)
      ensures SendRegion(w, h, d)[a] != SendRegion(w, h, d)[b]
      ensures RecvRegion(w, h, d)[a] != RecvRegion(w, h, d)[b]
    {
      RegionCells(w, h, d, a);
      RegionCells(w, h, d, b);
      var sa, sb := SendCell(w, h, d, a), SendCell(w, h, d, b);
      var ra, rb := RecvCell(w, h, d, a), RecvCell(w, h, d, b);
      if sa.1 >= 0 && sb.1 >= 0 {
        IndDecode(w, sa.0, sa.1);
        IndDecode(w, sb.0, sb.1);
      }
      IndDecode(w, ra.0, ra.1);
      IndDecode(w, rb.0, rb.1);
    }
  }
}
