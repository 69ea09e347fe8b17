/** The loops of hybridMPI.c that work cell by cell on one local grid:
    `grid_first_touch_`, `update_grid` and the injection of heat at the
    local sources. Cell values are modelled as exact reals; the program's
    doubles and their rounding are not modelled. */
module Kernel {
  import opened CArith
  import opened Grid
  import opened Sources

  /** `grid_first_touch_`: sets every cell of the local grid, halo
      included, to zero, row by row; `start` is the flat index `ind(0, j)`
      of the first cell of row `j`. */
  method FirstTouch(a: array<real>, w: nat, h: nat)
    requires a.Length == Size(w, h)
    modifies a
    ensures forall k | 0 <= k < a.Length :: a[k] == 0.0
  {
    var j, start := 0, 0;
    while j < h + 2
      invariant 0 <= j <= h + 2
      invariant start == Ind(w, 0, j) && 0 <= start <= a.Length
      invariant forall m | 0 <= m < start :: a[m] == 0.0
    {
      RowInRange(w, h, j);
      TouchRow(a, w, j, start);
      j, start := j + 1, start + w + 2;
    }
    IndEnd(w, h);
  }

  /** The inner loop of `grid_first_touch_`: zeroes row `j`, whose first
      cell `start` follows the cells already zeroed. `k` is the flat index
      `ind(i, j)`. */
  method TouchRow(a: array<real>, w: nat, j: nat, start: int)
    requires start == Ind(w, 0, j) && start + w + 2 <= a.Length
    requires forall m | 0 <= m < start :: a[m] == 0.0
    modifies a
    ensures forall m | 0 <= m < start + w + 2 :: a[m] == 0.0
    ensures forall m | start + w + 2 <= m < a.Length :: a[m] == old(a[m])
  {
    var i, k := 0, start;
    while i < w + 2
      invariant 0 <= i <= w + 2
      invariant k == start + i
      invariant forall m | 0 <= m < k :: a[m] == 0.0
      invariant forall m | k <= m < a.Length :: a[m] == old(a[m])
    {
      a[k] := 0.0;
      i, k := i + 1, k + 1;
    }
  }

  /** Row `j` of the padded grid occupies indices `ind(0, j)` up to
      `ind(0, j + 1)`, which is `w + 2` further and inside the array. */
  lemma RowInRange(w: nat, h: nat, j: nat)
    requires j < h + 2
    ensures 0 <= Ind(w, 0, j) && Ind(w, 0, j + 1) == Ind(w, 0, j) + w + 2
    ensures Ind(w, 0, j + 1) <= Size(w, h)
  {
    IndNextRow(w, j);
    IndEnd(w, h);
    MulMonotone(j + 1, h + 2, w + 2);
  }

  /** The cell after the last of row `j` is the first of row `j + 1`. */
  lemma IndNextRow(w: nat, j: int)
    ensures Ind(w, w + 2, j) == Ind(w, 0, j + 1)
  {
  }

  /** The first cell after the last row is the end of the array. */
  lemma IndEnd(w: nat, h: nat)
    ensures Ind(w, 0, h + 2) == Size(w, h)
  {
  }

  /** The damped five-point formula of `update_grid`: half the cell's
      previous value plus an eighth of each of its four neighbours. */
  function StencilValue(prev: real, west: real, east: real, north: real, south: real): real
  {
    prev / 2.0 + (west + east + north + south) / 4.0 / 2.0
  }

  /** The new value of interior cell (i, j): its value in `anew` and its
      neighbours' values in `aold`. */
  function StencilAt(w: nat, h: nat, aold: seq<real>, anew: seq<real>, i: int, j: int): real
    requires |aold| == Size(w, h) && |anew| == Size(w, h) && Interior(w, h, i, j)
  {
    IndInRange(w, h, i, j);
    IndInRange(w, h, i - 1, j);
    IndInRange(w, h, i + 1, j);
    IndInRange(w, h, i, j - 1);
    IndInRange(w, h, i, j + 1);
    StencilValue(anew[Ind(w, i, j)],
                 aold[Ind(w, i - 1, j)], aold[Ind(w, i + 1, j)],
                 aold[Ind(w, i, j - 1)], aold[Ind(w, i, j + 1)])
  }

  /** The grid `update_grid` leaves in `anew`: interior cells advanced,
      halo cells as they were. */
  function Stencil(w: nat, h: nat, aold: seq<real>, anew: seq<real>): seq<real>
    requires |aold| == Size(w, h) && |anew| == Size(w, h)
  {
    seq(|anew|, k requires 0 <= k < |anew| =>
      if InteriorIndex(w, h, k) then StencilAt(w, h, aold, anew, Col(w, k), Row(w, k)) else anew[k])
  }

  /** The sum of column `i`'s first `rows` interior cells. */
  function ColumnSum(s: seq<real>, w: nat, h: nat, i: int, rows: int): real
    requires |s| == Size(w, h) && 1 <= i <= w && rows <= h
    decreases rows
  {
    if rows <= 0 then 0.0
    else
      IndInRange(w, h, i, rows);
      ColumnSum(s, w, h, i, rows - 1) + s[Ind(w, i, rows)]
  }

  /** The sum of the interior cells of the first `cols` columns, in the
      order `update_grid` visits them. */
  function InteriorSum(s: seq<real>, w: nat, h: nat, cols: int): real
    requires |s| == Size(w, h) && cols <= w
    decreases cols
  {
    if cols <= 0 then 0.0 else InteriorSum(s, w, h, cols - 1) + ColumnSum(s, w, h, cols, h)
  }

  /** A zero grid has a zero column sum. */
  lemma {:induction false} ColumnSumZero(s: seq<real>, w: nat, h: nat, i: int, rows: int)
    requires |s| == Size(w, h) && 1 <= i <= w && rows <= h
    requires forall k | 0 <= k < |s| :: s[k] == 0.0
    ensures ColumnSum(s, w, h, i, rows) == 0.0
    decreases rows
  {
    if rows > 0 {
      ColumnSumZero(s, w, h, i, rows - 1);
      IndInRange(w, h, i, rows);
    }
  }

  /** A zero grid holds no heat. */
  lemma {:induction false} InteriorSumZero(s: seq<real>, w: nat, h: nat, cols: int)
    requires |s| == Size(w, h) && cols <= w
    requires forall k | 0 <= k < |s| :: s[k] == 0.0
    ensures InteriorSum(s, w, h, cols) == 0.0
    decreases cols
  {
    if cols > 0 {
      InteriorSumZero(s, w, h, cols - 1);
      ColumnSumZero(s, w, h, cols, h);
    }
  }

  /** The stencil's value at interior cell (i, j), in the program's terms. */
  lemma StencilCell(w: nat, h: nat, aold: seq<real>, anew: seq<real>, i: int, j: int)
    requires |aold| == Size(w, h) && |anew| == Size(w, h) && Interior(w, h, i, j)
    ensures 0 <= Ind(w, i, j) < Size(w, h)
    ensures Stencil(w, h, aold, anew)[Ind(w, i, j)] == StencilAt(w, h, aold, anew, i, j)
  {
    IndInRange(w, h, i, j);
    IndDecode(w, i, j);
  }

  /** Whether `update_grid` has already visited cell (ci, cj) when it is
      about to visit (i, j): columns left to right, rows top to bottom. */
  predicate Visited(ci: int, cj: int, i: int, j: int)
  {
    ci < i || (ci == i && cj < j)
  }

  /** Whether flat index `k` is an interior cell visited before (i, j). */
  predicate Done(w: nat, h: nat, k: int, i: int, j: int)
  {
    InteriorIndex(w, h, k) && Visited(Col(w, k), Row(w, k), i, j)
  }

  /** Visiting interior cell (i, j) adds exactly its index to those done. */
  lemma DoneStep(w: nat, h: nat, i: int, j: int, k: int)
    requires Interior(w, h, i, j) && 0 <= k < Size(w, h)
    ensures Done(w, h, k, i, j + 1) <==> Done(w, h, k, i, j) || k == Ind(w, i, j)
  {
    IndOnto(w, h, k);
    IndDecode(w, i, j);
  }

  /** `update_grid`: advances every interior cell of `anew` by the stencil,
      reading neighbours from `aold`, and returns the sum of the new
      interior values. `aold` is not written (it is not in the frame) and
      must be a different buffer. */
  method UpdateGrid(w: nat, h: nat, aold: array<real>, anew: array<real>) returns (heat: real)
    requires aold != anew
    requires aold.Length == Size(w, h) && anew.Length == Size(w, h)
    modifies anew
    ensures anew[..] == Stencil(w, h, aold[..], old(anew[..]))
    ensures heat == InteriorSum(anew[..], w, h, w)
  {
    ghost var target := Stencil(w, h, aold[..], anew[..]);
    ghost var before := anew[..];
    heat := 0.0;
    var i := 1;
    while i < w + 1
      invariant 1 <= i <= w + 1
      invariant forall k | 0 <= k < anew.Length :: anew[k] == if Done(w, h, k, i, 1) then target[k] else before[k]
      invariant heat == InteriorSum(target, w, h, i - 1)
    {
      var j := 1;
      while j < h + 1
        invariant 1 <= j <= h + 1
        invariant forall k | 0 <= k < anew.Length :: anew[k] == if Done(w, h, k, i, j) then target[k] else before[k]
        invariant heat == InteriorSum(target, w, h, i - 1) + ColumnSum(target, w, h, i, j - 1)
      {
        StencilCell(w, h, aold[..], before, i, j);
        DoneStep(w, h, i, j, Ind(w, i, j));
        IndInRange(w, h, i - 1, j);
        IndInRange(w, h, i + 1, j);
        IndInRange(w, h, i, j - 1);
        IndInRange(w, h, i, j + 1);
        IndDecode(w, i, j);
        ghost var prev := anew[..];
        assert prev[Ind(w, i, j)] == before[Ind(w, i, j)] by {
          assert !Done(w, h, Ind(w, i, j), i, j);
        }
        assert target[Ind(w, i, j)] ==
          StencilValue(prev[Ind(w, i, j)], aold[Ind(w, i - 1, j)], aold[Ind(w, i + 1, j)],
                       aold[Ind(w, i, j - 1)], aold[Ind(w, i, j + 1)]);
        anew[Ind(w, i, j)] :=
          anew[Ind(w, i, j)] / 2.0 + (aold[Ind(w, i - 1, j)] + aold[Ind(w, i + 1, j)] +
                                      aold[Ind(w, i, j - 1)] + aold[Ind(w, i, j + 1)]) / 4.0 / 2.0;
        assert anew[Ind(w, i, j)] == target[Ind(w, i, j)];
        assert anew[..] == prev[Ind(w, i, j) := target[Ind(w, i, j)]];
        heat := heat + anew[Ind(w, i, j)];
        forall k | 0 <= k < anew.Length
          ensures anew[k] == if Done(w, h, k, i, j + 1) then target[k] else before[k]
        {
          DoneStep(w, h, i, j, k);
          assert anew[k] == anew[..][k];
        }
        j := j + 1;
      }
      i := i + 1;
    }
    assert anew[..] == target;
  }

  /** `update_grid` changes no halo cell of `anew`, and gives every interior
      cell the stencil of its own value and its four neighbours. */
  lemma StencilFrame(w: nat, h: nat, aold: seq<real>, anew: seq<real>)
    requires |aold| == Size(w, h) && |anew| == Size(w, h)
    ensures forall k | HaloIndex(w, h, k) :: Stencil(w, h, aold, anew)[k] == anew[k]
    ensures forall i, j | Interior(w, h, i, j) ::
      0 <= Ind(w, i, j) < Size(w, h) &&
      Stencil(w, h, aold, anew)[Ind(w, i, j)] == StencilAt(w, h, aold, anew, i, j)
  {
    forall i, j | Interior(w, h, i, j)
      ensures 0 <= Ind(w, i, j) < Size(w, h)
      ensures Stencil(w, h, aold, anew)[Ind(w, i, j)] == StencilAt(w, h, aold, anew, i, j)
    {
      StencilCell(w, h, aold, anew, i, j);
    }
  }

  /** The stencil never reads a corner of `aold`: two old grids that differ
      only in their corners give the same new grid. This is why the
      exchange, which leaves the corners alone, is enough. */
  lemma StencilIgnoresCorners(w: nat, h: nat, a1: seq<real>, a2: seq<real>, anew: seq<real>)
    requires |a1| == Size(w, h) && |a2| == Size(w, h) && |anew| == Size(w, h)
    requires forall k | 0 <= k < Size(w, h) && !CornerIndex(w, h, k) :: a1[k] == a2[k]
    ensures Stencil(w, h, a1, anew) == Stencil(w, h, a2, anew)
  {
    forall k | 0 <= k < Size(w, h) && InteriorIndex(w, h, k)
      ensures StencilAt(w, h, a1, anew, Col(w, k), Row(w, k)) == StencilAt(w, h, a2, anew, Col(w, k), Row(w, k))
    {
      var i, j := Col(w, k), Row(w, k);
      NotCorner(w, h, i - 1, j);
      NotCorner(w, h, i + 1, j);
      NotCorner(w, h, i, j - 1);
      NotCorner(w, h, i, j + 1);
    }
  }

  /** A cell beside the interior's row or column range is no corner. */
  lemma NotCorner(w: nat, h: nat, i: int, j: int)
    requires InGrid(w, h, i, j) && ((1 <= i <= w) || (1 <= j <= h))
    ensures 0 <= Ind(w, i, j) < Size(w, h) && !CornerIndex(w, h, Ind(w, i, j))
  {
    IndInRange(w, h, i, j);
    IndDecode(w, i, j);
  }

  /** Sources that are interior cells of the local grid. */
  predicate InteriorSources(srcs: seq<Point>, w: nat, h: nat)
  {
    forall p <- srcs :: Interior(w, h, p.0, p.1)
  }

  /** The grid after adding `energy` at every source of `srcs`, in order. */
  function Injected(s: seq<real>, w: nat, h: nat, srcs: seq<Point>, energy: int): (r: seq<real>)
    requires |s| == Size(w, h)
    requires InteriorSources(srcs, w, h)
    ensures |r| == |s|
    decreases |srcs|
  {
    if srcs == [] then s
    else
      var p := srcs[|srcs| - 1];
      assert p in srcs && Interior(w, h, p.0, p.1) && InGrid(w, h, p.0, p.1);
      var t := Injected(s, w, h, srcs[..|srcs| - 1], energy);
      IndInRange(w, h, p.0, p.1);
      t[Ind(w, p.0, p.1) := t[Ind(w, p.0, p.1)] + energy as real]
  }

  /** How many sources of `srcs` sit on flat index `k`. */
  function Hits(w: nat, srcs: seq<Point>, k: int): nat
    decreases |srcs|
  {
    if srcs == [] then 0
    else
      var p := srcs[|srcs| - 1];
      Hits(w, srcs[..|srcs| - 1], k) + if Ind(w, p.0, p.1) == k then 1 else 0
  }

  /** Injection adds `energy` to a cell once per source on it. */
  lemma {:induction false} InjectedCell(s: seq<real>, w: nat, h: nat, srcs: seq<Point>, energy: int, k: int)
    requires |s| == Size(w, h)
    requires InteriorSources(srcs, w, h)
    requires 0 <= k < |s|
    ensures Injected(s, w, h, srcs, energy)[k] == s[k] + (Hits(w, srcs, k) * energy) as real
    decreases |srcs|
  {
    if srcs != [] {
      var p, init := srcs[|srcs| - 1], srcs[..|srcs| - 1];
      InjectedLast(s, w, h, srcs, energy, k);
      InjectedCell(s, w, h, init, energy, k);
      if Ind(w, p.0, p.1) == k {
        var m := Hits(w, init, k);
        assert Hits(w, srcs, k) == m + 1;
        assert (m + 1) * energy == m * energy + energy;
      }
    }
  }

  /** No source sits on a halo cell, so injection leaves the halo alone. */
  lemma {:induction false} HitsInterior(w: nat, h: nat, srcs: seq<Point>, k: int)
    requires InteriorSources(srcs, w, h)
    requires Hits(w, srcs, k) > 0
    ensures InteriorIndex(w, h, k)
    decreases |srcs|
  {
    var p, init := srcs[|srcs| - 1], srcs[..|srcs| - 1];
    assert p in srcs;
    if Ind(w, p.0, p.1) == k {
      IndDecode(w, p.0, p.1);
    } else {
      assert forall q <- init :: q in srcs;
      HitsInterior(w, h, init, k);
    }
  }

  /** Injecting one more source changes only the cell it sits on. */
  lemma InjectedLast(s: seq<real>, w: nat, h: nat, srcs: seq<Point>, energy: int, k: int)
    requires |s| == Size(w, h)
    requires InteriorSources(srcs, w, h)
    requires srcs != [] && 0 <= k < |s|
    ensures var p, init := srcs[|srcs| - 1], srcs[..|srcs| - 1];
      (forall q <- init :: q in srcs) &&
      Injected(s, w, h, srcs, energy)[k] ==
        Injected(s, w, h, init, energy)[k] + if Ind(w, p.0, p.1) == k then energy as real else 0.0
  {
    var init := srcs[..|srcs| - 1];
    assert forall q <- init :: q in srcs;
  }

  /** The injection loop of the driver: adds `energy` to the cell of each
      of the first `locn` entries of `locsources`. */
  method InjectSources(a: array<real>, w: nat, h: nat, locsources: array<Point>, locn: int, energy: int)
    requires a.Length == Size(w, h)
    requires 0 <= locn <= locsources.Length
    requires InteriorSources(locsources[..locn], w, h)
    modifies a
    ensures a[..] == Injected(old(a[..]), w, h, locsources[..locn], energy)
  {
    var i := 0;
    while i < locn
      invariant 0 <= i <= locn
      invariant forall p <- locsources[..i] :: p in locsources[..locn]
      invariant a[..] == Injected(old(a[..]), w, h, locsources[..i], energy)
    {
      assert locsources[..i + 1][..i] == locsources[..i];
      assert locsources[i] in locsources[..locn];
      IndInRange(w, h, locsources[i].0, locsources[i].1);
      a[Ind(w, locsources[i].0, locsources[i].1)] := a[Ind(w, locsources[i].0, locsources[i].1)] + energy as real;
      i := i + 1;
    }
  }
}
