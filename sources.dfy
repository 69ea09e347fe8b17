/** The heat sources (`init_sources` in hybridMPI.c): three fixed points of
    the global grid, of which each process keeps those inside its own block,
    translated to indices of its local grid (which has a one-cell halo, hence
    the `+ 1`). The program runs the filtering loop under an OpenMP
    `parallel for` with an unprotected shared counter; this module gives the
    loop's sequential meaning. */
module Sources {
  import opened CArith
  import opened Topology
  import opened Partition

  /** A point (x, y) of a grid. */
  type Point = (int, int)

  /** The number of heat sources. */
  const NSources: nat := 3

  /** The sources of an n x n grid, with C's truncating division:
      (n/2, n/2), (n/3, n/3) and (4n/5, 8n/9). */
  function GlobalSources(n: int): seq<Point>
  {
    [(Quot(n, 2), Quot(n, 2)), (Quot(n, 3), Quot(n, 3)), (Quot(n * 4, 5), Quot(n * 8, 9))]
  }

  /** For a non-empty grid every source is a cell of the grid. */
  lemma GlobalSourcesInGrid(n: int)
    requires n >= 1
    ensures |GlobalSources(n)| == NSources
    ensures forall g <- GlobalSources(n) :: 0 <= g.0 < n && 0 <= g.1 < n
  {
    QuotRemAgree(n, 2);
    QuotRemAgree(n, 3);
    QuotRemAgree(n * 4, 5);
    QuotRemAgree(n * 8, 9);
  }

  /** The test of the program's loop: the source lies in the block. */
  predicate IsLocal(g: Point, b: Block)
  {
    var locx, locy := g.0 - b.offx, g.1 - b.offy;
    locx >= 0 && locx < b.width && locy >= 0 && locy < b.height
  }

  /** A global point's index in the local grid of block `b`. */
  function Translate(g: Point, b: Block): Point
  {
    (g.0 - b.offx + 1, g.1 - b.offy + 1)
  }

  /** What the loop leaves in `locsources[..locnsources]` after visiting the
      sources of `s` in order: each local source, translated. Every entry is
      an interior cell of the local grid and there are no more entries than
      sources. */
  function LocalSources(s: seq<Point>, b: Block): (l: seq<Point>)
    ensures |l| <= |s|
    ensures forall p <- l :: 1 <= p.0 <= b.width && 1 <= p.1 <= b.height
  {
    if s == [] then []
    else
      var g := s[|s| - 1];
      LocalSources(s[..|s| - 1], b) + if IsLocal(g, b) then [Translate(g, b)] else []
  }

  /** The program's test is block membership. */
  lemma IsLocalIffInBlock(g: Point, b: Block)
    ensures IsLocal(g, b) <==> InBlock(b, g.0, g.1)
  {
  }

  /** A point is kept exactly when some source lies in the block and
      translates to it. */
  lemma {:induction false} LocalSourcesMembers(s: seq<Point>, b: Block, p: Point)
    ensures p in LocalSources(s, b) <==> exists g <- s :: IsLocal(g, b) && p == Translate(g, b)
  {
    if s != [] {
      var init, g := s[..|s| - 1], s[|s| - 1];
      assert s == init + [g];
      LocalSourcesMembers(init, b, p);
      if p in LocalSources(init, b) {
        var g' :| g' in init && IsLocal(g', b) && p == Translate(g', b);
        assert g' in s;
      }
      if exists g' <- s :: IsLocal(g', b) && p == Translate(g', b) {
        var g' :| g' in s && IsLocal(g', b) && p == Translate(g', b);
        if g' != g {
          assert g' in init;
        }
      }
    }
  }

  /** The filter keeps input order: the sources of `s + t` give those of
      `s` followed by those of `t`. */
  lemma {:induction false} LocalSourcesAppend(s: seq<Point>, t: seq<Point>, b: Block)
    ensures LocalSources(s + t, b) == LocalSources(s, b) + LocalSources(t, b)
  {
    if t == [] {
      assert s + t == s;
    } else {
      var init, g := t[..|t| - 1], t[|t| - 1];
      assert (s + t)[..|s + t| - 1] == s + init;
      LocalSourcesAppend(s, init, b);
    }
  }

  /** One more source visited: it is appended, translated, exactly when it
      is local. */
  lemma LocalSourcesSnoc(s: seq<Point>, g: Point, b: Block)
    ensures LocalSources(s + [g], b) == LocalSources(s, b) + if IsLocal(g, b) then [Translate(g, b)] else []
  {
    assert (s + [g])[..|s|] == s;
  }

  /** Across the whole decomposition every heat source is kept by exactly
      one process: the owner of its cell. */
  lemma SourceKeptOnce(n: int, px: int, py: int, k: int, rank: int)
    requires Divisible(n, px, py) && 0 <= k < NSources && ValidRank(rank, px, py)
    ensures var g := GlobalSources(n)[k];
      0 <= g.0 < n && 0 <= g.1 < n &&
      (IsLocal(g, BlockOf(n, px, py, rank)) <==> rank == Owner(n, px, py, g.0, g.1))
  {
    GlobalSourcesInGrid(n);
    var g := GlobalSources(n)[k];
    assert g in GlobalSources(n);
    var o := Owner(n, px, py, g.0, g.1);
    if IsLocal(g, BlockOf(n, px, py, rank)) {
      BlocksDisjoint(n, px, py, rank, o, g.0, g.1);
    }
  }

  /** The loop of `init_sources`: copies the local sources among
      `sources`, translated, to the front of `locsources` and returns how
      many there are. */
  method KeepLocal(b: Block, sources: array<Point>, locsources: array<Point>) returns (locn: int)
    requires sources.Length <= locsources.Length
    requires sources != locsources
    modifies locsources
    ensures 0 <= locn <= sources.Length
    ensures locsources[..locn] == LocalSources(sources[..], b)
    ensures locsources[locn..] == old(locsources[locn..])
  {
    locn := 0;
    var i := 0;
    while i < sources.Length
      invariant 0 <= locn <= i <= sources.Length
      invariant locsources[..locn] == LocalSources(sources[..i], b)
      invariant locsources[locn..] == old(locsources[locn..])
    {
      assert sources[..i + 1] == sources[..i] + [sources[i]];
      LocalSourcesSnoc(sources[..i], sources[i], b);
      var locx := sources[i].0 - b.offx;
      var locy := sources[i].1 - b.offy;
      if locx >= 0 && locx < b.width && locy >= 0 && locy < b.height {
        locsources[locn] := (locx + 1, locy + 1);
        locn := locn + 1;
      }
      i := i + 1;
    }
    assert sources[..i] == sources[..];
  }

  /** `init_sources`: fills `sources` with the global sources of the n x n
      grid, then keeps the local ones in `locsources`. */
  method InitSources(b: Block, n: int, sources: array<Point>, locsources: array<Point>) returns (locn: int)
    requires sources.Length == NSources && locsources.Length == NSources
    requires sources != locsources
    modifies sources, locsources
    ensures sources[..] == GlobalSources(n)
    ensures 0 <= locn <= NSources
    ensures locsources[..locn] == LocalSources(GlobalSources(n), b)
    ensures locsources[locn..] == old(locsources[locn..])
  {
    var global := GlobalSources(n);
    sources[0], sources[1], sources[2] := global[0], global[1], global[2];
    assert sources[..] == global;
    locn := KeepLocal(b, sources, locsources);
  }
}
