/** One process of the benchmark (`main` in hybridMPI.c after start-up): its
    place in the process grid, its block, its local sources, the two grid
    buffers `aold` and `anew`, and the iteration loop that injects heat,
    exchanges halos, advances the stencil and swaps the buffers.

    What the other processes send is a parameter of each iteration (an
    `Exchange.Inbox`); the final `MPI_Allreduce` of the heat, the timers and
    the output are not modelled. */
module Driver {
  import opened Settings
  import opened Topology
  import opened Partition
  import opened Sources
  import opened Grid
  import opened Kernel
  import opened Exchange

  /** Whether flat index `k` is a halo cell that no receive ever writes: a
      corner, or a cell of a halo side facing the edge of the process
      grid. */
  predicate Fixed(rank: int, px: int, py: int, w: nat, h: nat, k: int)
    requires ValidGrid(px, py) && ValidRank(rank, px, py)
  {
    HaloIndex(w, h, k) && forall d :: NeighborOf(rank, px, py, d).Rank? ==> k !in RecvRegion(w, h, d)
  }

  /** The fixed boundary of grid `s` is cold: the program's boundary
      condition, set by first touch and never written afterwards. */
  predicate BoundaryZero(s: seq<real>, rank: int, px: int, py: int, w: nat, h: nat)
    requires ValidGrid(px, py) && ValidRank(rank, px, py)
  {
    forall k | 0 <= k < |s| && Fixed(rank, px, py, w, h, k) :: s[k] == 0.0
  }

  /** An inbox as the runtime delivers it to `rank`: a message of the right
      length from exactly the directions in which there is a neighbour. */
  predicate Delivered(inbox: Inbox, rank: int, px: int, py: int, w: nat, h: nat)
    requires ValidGrid(px, py) && ValidRank(rank, px, py)
  {
    InboxFits(inbox, w, h) && forall d :: d in inbox <==> NeighborOf(rank, px, py, d).Rank?
  }

  /** Every inbox of a run fits the local grid. */
  predicate AllFit(inboxes: seq<Inbox>, w: nat, h: nat)
  {
    forall i | 0 <= i < |inboxes| :: InboxFits(inboxes[i], w, h)
  }

  /** Every inbox of a run is as the runtime delivers it to `rank`. */
  predicate AllDelivered(inboxes: seq<Inbox>, rank: int, px: int, py: int, w: nat, h: nat)
    requires ValidGrid(px, py) && ValidRank(rank, px, py)
  {
    AllFit(inboxes, w, h) && forall i | 0 <= i < |inboxes| :: Delivered(inboxes[i], rank, px, py, w, h)
  }

  /** A pair of grid buffers (aold, anew) of the local size. */
  predicate Sized(g: (seq<real>, seq<real>), w: nat, h: nat)
  {
    |g.0| == Size(w, h) && |g.1| == Size(w, h)
  }

  /** One iteration of the driver loop on (aold, anew): inject heat into
      `aold`, receive the halo into it, advance `anew` from it, and swap.
      The result is the new (aold, anew). */
  function Advance(w: nat, h: nat, srcs: seq<Point>, energy: int, inbox: Inbox,
                   g: (seq<real>, seq<real>)): (r: (seq<real>, seq<real>))
    requires Sized(g, w, h) && InteriorSources(srcs, w, h) && InboxFits(inbox, w, h)
    ensures Sized(r, w, h)
  {
    var exchanged := Receive(Injected(g.0, w, h, srcs, energy), w, h, inbox);
    (Stencil(w, h, exchanged, g.1), exchanged)
  }

  /** The buffers after one iteration per inbox, in order. */
  function Simulate(w: nat, h: nat, srcs: seq<Point>, energy: int, inboxes: seq<Inbox>,
                    g: (seq<real>, seq<real>)): (r: (seq<real>, seq<real>))
    requires Sized(g, w, h) && InteriorSources(srcs, w, h)
    requires AllFit(inboxes, w, h)
    ensures Sized(r, w, h)
    decreases |inboxes|
  {
    if inboxes == [] then g
    else
      var n := |inboxes| - 1;
      Advance(w, h, srcs, energy, inboxes[n], Simulate(w, h, srcs, energy, inboxes[..n], g))
  }

  /** One cell of the fixed boundary through one iteration: injection,
      receives and the stencil all leave it alone. */
  lemma AdvanceKeepsFixed(rank: int, px: int, py: int, w: nat, h: nat, srcs: seq<Point>, energy: int,
                          inbox: Inbox, g: (seq<real>, seq<real>), k: int)
    requires ValidGrid(px, py) && ValidRank(rank, px, py)
    requires Sized(g, w, h) && InteriorSources(srcs, w, h) && Delivered(inbox, rank, px, py, w, h)
    requires 0 <= k < Size(w, h) && Fixed(rank, px, py, w, h, k)
    ensures Advance(w, h, srcs, energy, inbox, g).0[k] == g.1[k]
    ensures Advance(w, h, srcs, energy, inbox, g).1[k] == g.0[k]
  {
    var injected := Injected(g.0, w, h, srcs, energy);
    InjectedCell(g.0, w, h, srcs, energy, k);
    if Hits(w, srcs, k) > 0 {
      HitsInterior(w, h, srcs, k);
    }
    assert injected[k] == g.0[k];
    ReceiveOutside(injected, w, h, inbox, k);
    var exchanged := Receive(injected, w, h, inbox);
    StencilFrame(w, h, exchanged, g.1);
  }

  /** An iteration keeps the fixed boundary of both buffers cold. */
  lemma AdvanceKeepsBoundary(rank: int, px: int, py: int, w: nat, h: nat, srcs: seq<Point>, energy: int,
                             inbox: Inbox, g: (seq<real>, seq<real>))
    requires ValidGrid(px, py) && ValidRank(rank, px, py)
    requires Sized(g, w, h) && InteriorSources(srcs, w, h) && Delivered(inbox, rank, px, py, w, h)
    requires BoundaryZero(g.0, rank, px, py, w, h) && BoundaryZero(g.1, rank, px, py, w, h)
    ensures var r := Advance(w, h, srcs, energy, inbox, g);
      BoundaryZero(r.0, rank, px, py, w, h) && BoundaryZero(r.1, rank, px, py, w, h)
  {
    forall k | 0 <= k < Size(w, h) && Fixed(rank, px, py, w, h, k)
      ensures Advance(w, h, srcs, energy, inbox, g).0[k] == 0.0
      ensures Advance(w, h, srcs, energy, inbox, g).1[k] == 0.0
    {
      AdvanceKeepsFixed(rank, px, py, w, h, srcs, energy, inbox, g, k);
    }
  }

  /** Any number of iterations keeps the fixed boundary cold. */
  lemma {:induction false} SimulateKeepsBoundary(rank: int, px: int, py: int, w: nat, h: nat, srcs: seq<Point>,
                                                 energy: int, inboxes: seq<Inbox>, g: (seq<real>, seq<real>))
    requires ValidGrid(px, py) && ValidRank(rank, px, py)
    requires Sized(g, w, h) && InteriorSources(srcs, w, h)
    requires AllDelivered(inboxes, rank, px, py, w, h)
    requires BoundaryZero(g.0, rank, px, py, w, h) && BoundaryZero(g.1, rank, px, py, w, h)
    ensures var r := Simulate(w, h, srcs, energy, inboxes, g);
      BoundaryZero(r.0, rank, px, py, w, h) && BoundaryZero(r.1, rank, px, py, w, h)
    decreases |inboxes|
  {
    if inboxes != [] {
      var n := |inboxes| - 1;
      SimulateKeepsBoundary(rank, px, py, w, h, srcs, energy, inboxes[..n], g);
      AdvanceKeepsBoundary(rank, px, py, w, h, srcs, energy, inboxes[n],
                           Simulate(w, h, srcs, energy, inboxes[..n], g));
    }
  }

  /** The value of the program's own `heat` variable: it is declared
      without a value and only `update_grid` ever stores into it, so it is
      `Unset` until the first iteration. */
  datatype HeatValue = Unset | Value(heat: real)

  /** A grid buffer of the local size holding zero everywhere, as first
      touch leaves it. */
  function Zeros(w: nat, h: nat): (s: seq<real>)
    ensures |s| == Size(w, h) && forall k | 0 <= k < |s| :: s[k] == 0.0
  {
    seq(Size(w, h), _ => 0.0)
  }

  /** One process: the constants `main` derives at start-up and the state
      its loop updates. `heat` starts at zero here (see `Run`). */
  class Process {
    const rank: int
    const px: int
    const py: int
    const n: int
    const energy: int
    /** The program's `bx` and `by`. */
    const w: nat
    const h: nat
    const block: Block
    const north: Neighbor
    const south: Neighbor
    const east: Neighbor
    const west: Neighbor
    const sources: array<Point>
    const locsources: array<Point>
    const locn: int
    var aold: array<real>
    var anew: array<real>
    /** `heat` as it should be: the heat of the grid last written, which
        before any iteration is the zero grid's. */
    var heat: real
    /** `heat` as the program has it: unset until `update_grid` first
        stores into it, and from then on the same value as `heat`. */
    ghost var heatAsWritten: HeatValue

    ghost predicate Valid()
      reads this, aold, anew, locsources
    {
      && ValidGrid(px, py) && ValidRank(rank, px, py) && w >= 1 && h >= 1
      && aold != anew && aold.Length == Size(w, h) && anew.Length == Size(w, h)
      && 0 <= locn <= locsources.Length
      && InteriorSources(locsources[..locn], w, h)
      && BoundaryZero(aold[..], rank, px, py, w, h) && BoundaryZero(anew[..], rank, px, py, w, h)
      && heat == InteriorSum(aold[..], w, h, w)
      && (heatAsWritten.Value? ==> heatAsWritten.heat == heat)
    }

    /** Start-up of process `rank` among `proc` with the validated
        parameters `p`: coordinates and neighbours, the block, two zeroed
        buffers and the local sources. */
    constructor (p: Params, proc: int, rank: int)
      requires WellFormed(p, proc) && 0 <= rank < proc
      ensures fresh(aold) && fresh(anew) && Valid()
      ensures this.rank == rank && px == p.px && py == p.py && n == p.n && energy == p.energy
      ensures block == BlockOf(p.n, p.px, p.py, rank) && w == block.width && h == block.height
      ensures north == NeighborOf(rank, px, py, North) && south == NeighborOf(rank, px, py, South)
      ensures east == NeighborOf(rank, px, py, East) && west == NeighborOf(rank, px, py, West)
      ensures sources[..] == GlobalSources(p.n)
      ensures locsources[..locn] == LocalSources(GlobalSources(p.n), block)
      ensures forall k | 0 <= k < aold.Length :: aold[k] == 0.0
      ensures forall k | 0 <= k < anew.Length :: anew[k] == 0.0
      ensures heat == 0.0 && heatAsWritten == Unset
    {
      var px, py := p.px, p.py;
      assert Divisible(p.n, px, py);
      BlockInGrid(p.n, px, py, rank);
      var c := Coords(rank, px, py);
      var rx, ry := rank % px, rank / px;
      var bw, bh := p.n / px, p.n / py;
      var b := Block(bw, bh, rx * bw, ry * bh);
      this.rank, this.px, this.py, this.n, this.energy := rank, px, py, p.n, p.energy;
      w, h, block := bw, bh, b;
      north, south := NeighborOf(rank, px, py, North), NeighborOf(rank, px, py, South);
      east, west := NeighborOf(rank, px, py, East), NeighborOf(rank, px, py, West);
      var a0 := new real[Size(bw, bh)];
      var a1 := new real[Size(bw, bh)];
      FirstTouch(a0, bw, bh);
      FirstTouch(a1, bw, bh);
      var src := new Point[NSources];
      var loc := new Point[NSources];
      var count := InitSources(b, p.n, src, loc);
      aold, anew := a0, a1;
      sources, locsources, locn := src, loc, count;
      heat := 0.0;
      heatAsWritten := Unset;
      InteriorSumZero(a0[..], bw, bh, bw);
    }

    /** One iteration of the driver loop with the messages `inbox`:
        injects heat into `aold`, sends its boundary (`sent`), receives the
        halo, lets `update_grid` advance `anew` and swaps the two buffers. */
    method Iterate(inbox: Inbox) returns (sent: Inbox)
      requires Valid() && Delivered(inbox, rank, px, py, w, h)
      modifies this, aold, anew
      ensures Valid()
      ensures aold == old(anew) && anew == old(aold)
      ensures (aold[..], anew[..]) ==
        Advance(w, h, locsources[..locn], energy, inbox, (old(aold[..]), old(anew[..])))
      ensures sent == Outbox(Injected(old(aold[..]), w, h, locsources[..locn], energy), px, py, w, h, rank)
      ensures heat == InteriorSum(aold[..], w, h, w) && heatAsWritten == Value(heat)
    {
      ghost var g := (aold[..], anew[..]);
      ghost var srcs := locsources[..locn];
      InjectSources(aold, w, h, locsources, locn, energy);
      assert aold[..] == Injected(g.0, w, h, srcs, energy);
      sent := Outbox(aold[..], px, py, w, h, rank);
      assert sent == Outbox(Injected(g.0, w, h, srcs, energy), px, py, w, h, rank);
      var received := Receive(aold[..], w, h, inbox);
      forall k | 0 <= k < aold.Length {
        aold[k] := received[k];
      }
      assert aold[..] == received;
      assert anew[..] == g.1;
      assert received == Advance(w, h, srcs, energy, inbox, g).1;
      heat := UpdateGrid(w, h, aold, anew);
      heatAsWritten := Value(heat);
      assert anew[..] == Stencil(w, h, received, g.1);
      ghost var next := (anew[..], aold[..]);
      assert next == Advance(w, h, srcs, energy, inbox, g);
      AdvanceKeepsBoundary(rank, px, py, w, h, srcs, energy, inbox, g);
      aold, anew := anew, aold;
      assert (aold[..], anew[..]) == next;
      assert locsources[..locn] == srcs;
    }

    /** The driver loop: `niters` iterations (none when `niters` is not
        positive), one per inbox. The two buffers are only swapped, never
        reallocated, and `heat` is the heat of the grid the last update
        wrote. The program's own `heat` is stored only when some iteration
        runs. */
    method Run(niters: int, inboxes: seq<Inbox>)
      requires Valid()
      requires |inboxes| == if niters > 0 then niters else 0
      requires AllDelivered(inboxes, rank, px, py, w, h)
      modifies this, aold, anew
      ensures Valid()
      ensures {aold, anew} == {old(aold), old(anew)}
      ensures (aold[..], anew[..]) ==
        Simulate(w, h, locsources[..locn], energy, inboxes, (old(aold[..]), old(anew[..])))
      ensures heat == InteriorSum(aold[..], w, h, w)
      ensures niters > 0 ==> heatAsWritten == Value(heat)
      ensures niters <= 0 ==> heatAsWritten == old(heatAsWritten)
    {
      ghost var g := (aold[..], anew[..]);
      var iter := 0;
      while iter < niters
        invariant Valid()
        invariant 0 <= iter <= |inboxes|
        invariant niters > 0 ==> iter <= niters
        invariant {aold, anew} == {old(aold), old(anew)}
        invariant (aold[..], anew[..]) == Simulate(w, h, locsources[..locn], energy, inboxes[..iter], g)
        invariant iter > 0 ==> heatAsWritten == Value(heat)
        invariant iter == 0 ==> heatAsWritten == old(heatAsWritten)
      {
        assert inboxes[..iter + 1][..iter] == inboxes[..iter];
        var sent := Iterate(inboxes[iter]);
        iter := iter + 1;
      }
      assert inboxes[..iter] == inboxes;
    }
  }

  /** `main` for process `rank` from the validated parameters `p` to the
      final reduction: start-up, then one iteration per inbox. The buffers
      end as the iterations leave two zero grids; the corrected `heat` is
      the heat of the last grid written in every case, while the program's
      own `heat` has a value only when `niters` is positive. */
  method Execute(p: Params, proc: int, rank: int, inboxes: seq<Inbox>) returns (pr: Process)
    requires WellFormed(p, proc) && 0 <= rank < proc
    requires |inboxes| == if p.niters > 0 then p.niters else 0
    requires AllDelivered(inboxes, rank, p.px, p.py, p.n / p.px, p.n / p.py)
    ensures fresh(pr) && pr.Valid()
    ensures pr.rank == rank && pr.px == p.px && pr.py == p.py && pr.energy == p.energy
    ensures pr.block == BlockOf(p.n, p.px, p.py, rank)
    ensures pr.w == p.n / p.px && pr.h == p.n / p.py
    ensures pr.locsources[..pr.locn] == LocalSources(GlobalSources(p.n), pr.block)
    ensures (pr.aold[..], pr.anew[..]) ==
      Simulate(pr.w, pr.h, pr.locsources[..pr.locn], p.energy, inboxes, (Zeros(pr.w, pr.h), Zeros(pr.w, pr.h)))
    ensures pr.heat == InteriorSum(pr.aold[..], pr.w, pr.h, pr.w)
    ensures pr.heatAsWritten == if p.niters > 0 then Value(pr.heat) else Unset
  {
    pr := new Process(p, proc, rank);
    assert pr.aold[..] == Zeros(pr.w, pr.h) && pr.anew[..] == Zeros(pr.w, pr.h);
    pr.Run(p.niters, inboxes);
  }

  /** With zero iterations the run is accepted, and when `main` reaches the
      reduction the program's `heat` was never assigned; the corrected
      `heat` is the zero grid's, 0. */
  method NoIterationLeavesHeatUnset() returns (pr: Process)
    ensures Setup(6, 1, 4, 1, 0, 1, 1) == Ok(Params(4, 1, 0, 1, 1))
    ensures pr.heatAsWritten == Unset && pr.heat == 0.0
  {
    var p := Params(4, 1, 0, 1, 1);
    assert WellFormed(p, 1);
    pr := Execute(p, 1, 0, []);
    InteriorSumZero(pr.aold[..], pr.w, pr.h, pr.w);
  }
}
