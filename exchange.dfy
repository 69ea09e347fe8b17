/** The halo exchange of the driver loop (hybridMPI.c): each process sends
    its outermost interior row or column towards each neighbour with
    `MPI_Isend` and receives the neighbour's into its halo with `MPI_Irecv`,
    all on `aold`, then waits for all eight requests.

    The message passing runtime is not modelled; its effect is. A message is
    the sequence of cell values a send region addresses (`Pack`), and a
    receive writes a message into a receive region (`Scatter`). What a
    process receives is a parameter, an `Inbox`; `InboxOf` builds the inbox
    each process gets when every process sends its current grid, and the
    round-trip lemmas say where each received value came from. */
module Exchange {
  import opened Topology
  import opened Partition
  import opened Grid

  /** Every index of region `r` addresses a cell of a grid of `len` cells. */
  predicate InRange(r: seq<int>, len: int)
  {
    forall i | 0 <= i < |r| :: 0 <= r[i] < len
  }

  /** What a send of region `r` reads from grid `s`, in order. */
  function Pack(s: seq<real>, r: seq<int>): (m: seq<real>)
    requires InRange(r, |s|)
    ensures |m| == |r|
  {
    seq(|r|, i requires 0 <= i < |r| => s[r[i]])
  }

  /** Grid `s` after a receive of `msg` into region `r`: the `i`-th value
      lands on the `i`-th cell of the region. */
  function Scatter(s: seq<real>, r: seq<int>, msg: seq<real>): (t: seq<real>)
    requires InRange(r, |s|) && |msg| == |r|
    ensures |t| == |s|
    decreases |r|
  {
    if r == [] then s
    else
      var n := |r| - 1;
      Scatter(s, r[..n], msg[..n])[r[n] := msg[n]]
  }

  /** A receive leaves every cell outside its region as it was. */
  lemma {:induction false} ScatterOutside(s: seq<real>, r: seq<int>, msg: seq<real>, k: int)
    requires InRange(r, |s|) && |msg| == |r|
    requires 0 <= k < |s| && k !in r
    ensures Scatter(s, r, msg)[k] == s[k]
    decreases |r|
  {
    if r != [] {
      var n := |r| - 1;
      ScatterOutside(s, r[..n], msg[..n], k);
    }
  }

  /** In a region that names no cell twice, the `i`-th cell receives the
      `i`-th value of the message. */
  lemma {:induction false} ScatterAt(s: seq<real>, r: seq<int>, msg: seq<real>, i: int)
    requires InRange(r, |s|) && |msg| == |r| && Distinct(r)
    requires 0 <= i < |r|
    ensures Scatter(s, r, msg)[r[i]] == msg[i]
    decreases |r|
  {
    var n := |r| - 1;
    if i < n {
      assert r[i] != r[n];
      ScatterAt(s, r[..n], msg[..n], i);
    }
  }

  /** Receiving a message into a region and sending the same region gives
      the message back. */
  lemma PackScatter(s: seq<real>, r: seq<int>, msg: seq<real>)
    requires InRange(r, |s|) && |msg| == |r| && Distinct(r)
    ensures Pack(Scatter(s, r, msg), r) == msg
  {
    forall i | 0 <= i < |r|
      ensures Pack(Scatter(s, r, msg), r)[i] == msg[i]
    {
      ScatterAt(s, r, msg, i);
    }
  }

  /** Receiving into a region what that region already holds changes
      nothing. */
  lemma {:induction false} ScatterPack(s: seq<real>, r: seq<int>)
    requires InRange(r, |s|)
    ensures Scatter(s, r, Pack(s, r)) == s
    decreases |r|
  {
    if r != [] {
      var n := |r| - 1;
      assert Pack(s, r)[..n] == Pack(s, r[..n]);
      ScatterPack(s, r[..n]);
    }
  }

  /** What a process has received, by the direction it came from. A
      direction whose neighbour is `MPI_PROC_NULL` has no entry: that
      receive completes at once and writes nothing. */
  type Inbox = map<Direction, seq<real>>

  /** Each message has the length of the receive region it is meant for. */
  predicate InboxFits(inbox: Inbox, w: nat, h: nat)
  {
    forall d | d in inbox :: |inbox[d]| == EdgeLength(w, h, d)
  }

  /** The receive from direction `d`. */
  function ReceiveFrom(s: seq<real>, w: nat, h: nat, inbox: Inbox, d: Direction): (t: seq<real>)
    requires |s| == Size(w, h) && InboxFits(inbox, w, h)
    ensures |t| == |s|
  {
    if d in inbox then
      RegionsInRange(w, h, d);
      Scatter(s, RecvRegion(w, h, d), inbox[d])
    else s
  }

  /** `aold` after all four receives have completed. */
  function Receive(s: seq<real>, w: nat, h: nat, inbox: Inbox): (t: seq<real>)
    requires |s| == Size(w, h) && InboxFits(inbox, w, h)
    ensures |t| == |s|
  {
    var s1 := ReceiveFrom(s, w, h, inbox, North);
    var s2 := ReceiveFrom(s1, w, h, inbox, South);
    var s3 := ReceiveFrom(s2, w, h, inbox, East);
    ReceiveFrom(s3, w, h, inbox, West)
  }

  /** One receive, seen from the `m`-th cell of the region of direction
      `d`: the receive from `d` writes the `m`-th value there, a receive
      from any other direction leaves it alone. */
  lemma ReceiveStep(s: seq<real>, w: nat, h: nat, inbox: Inbox, e: Direction, d: Direction, m: int)
    requires |s| == Size(w, h) && InboxFits(inbox, w, h)
    requires d in inbox && 0 <= m < EdgeLength(w, h, d)
    ensures |RecvRegion(w, h, d)| == EdgeLength(w, h, d) && 0 <= RecvRegion(w, h, d)[m] < |s|
    ensures ReceiveFrom(s, w, h, inbox, e)[RecvRegion(w, h, d)[m]] ==
      if e == d then inbox[d][m] else s[RecvRegion(w, h, d)[m]]
  {
    RegionsInRange(w, h, d);
    var k := RecvRegion(w, h, d)[m];
    if e == d {
      RegionShapes(w, h, d);
      ScatterAt(s, RecvRegion(w, h, d), inbox[d], m);
    } else if e in inbox {
      assert k in RecvRegion(w, h, d);
      RegionsInRange(w, h, e);
      RecvRegionsDisjoint(w, h, d, e);
      ScatterOutside(s, RecvRegion(w, h, e), inbox[e], k);
    }
  }

  /** After the receives, the `m`-th cell of the halo region facing `d`
      holds the `m`-th value of the message from `d`. */
  lemma ReceiveAt(s: seq<real>, w: nat, h: nat, inbox: Inbox, d: Direction, m: int)
    requires |s| == Size(w, h) && InboxFits(inbox, w, h)
    requires d in inbox && 0 <= m < EdgeLength(w, h, d)
    ensures |RecvRegion(w, h, d)| == EdgeLength(w, h, d) && 0 <= RecvRegion(w, h, d)[m] < |s|
    ensures Receive(s, w, h, inbox)[RecvRegion(w, h, d)[m]] == inbox[d][m]
  {
    var s1 := ReceiveFrom(s, w, h, inbox, North);
    var s2 := ReceiveFrom(s1, w, h, inbox, South);
    var s3 := ReceiveFrom(s2, w, h, inbox, East);
    ReceiveStep(s, w, h, inbox, North, d, m);
    ReceiveStep(s1, w, h, inbox, South, d, m);
    ReceiveStep(s2, w, h, inbox, East, d, m);
    ReceiveStep(s3, w, h, inbox, West, d, m);
  }

  /** A receive from `e` leaves alone every cell outside its region. */
  lemma ReceiveFromOutside(s: seq<real>, w: nat, h: nat, inbox: Inbox, e: Direction, k: int)
    requires |s| == Size(w, h) && InboxFits(inbox, w, h) && 0 <= k < |s|
    requires e in inbox ==> k !in RecvRegion(w, h, e)
    ensures ReceiveFrom(s, w, h, inbox, e)[k] == s[k]
  {
    if e in inbox {
      RegionsInRange(w, h, e);
      ScatterOutside(s, RecvRegion(w, h, e), inbox[e], k);
    }
  }

  /** The receives write nothing but the regions of the messages that
      arrived: the interior, the four corners and the halo facing a missing
      neighbour keep their values. */
  lemma ReceiveOutside(s: seq<real>, w: nat, h: nat, inbox: Inbox, k: int)
    requires |s| == Size(w, h) && InboxFits(inbox, w, h) && 0 <= k < |s|
    requires forall d | d in inbox :: k !in RecvRegion(w, h, d)
    ensures Receive(s, w, h, inbox)[k] == s[k]
  {
    var s1 := ReceiveFrom(s, w, h, inbox, North);
    var s2 := ReceiveFrom(s1, w, h, inbox, South);
    var s3 := ReceiveFrom(s2, w, h, inbox, East);
    ReceiveFromOutside(s, w, h, inbox, North, k);
    ReceiveFromOutside(s1, w, h, inbox, South, k);
    ReceiveFromOutside(s2, w, h, inbox, East, k);
    ReceiveFromOutside(s3, w, h, inbox, West, k);
  }

  /** In particular no interior cell and no corner is written. */
  lemma ReceiveKeepsInteriorAndCorners(s: seq<real>, w: nat, h: nat, inbox: Inbox, k: int)
    requires |s| == Size(w, h) && InboxFits(inbox, w, h) && 0 <= k < |s|
    requires InteriorIndex(w, h, k) || CornerIndex(w, h, k)
    ensures Receive(s, w, h, inbox)[k] == s[k]
  {
    forall d | d in inbox
      ensures k !in RecvRegion(w, h, d)
    {
      RecvRegionHalo(w, h, d);
    }
    ReceiveOutside(s, w, h, inbox, k);
  }

  /** The message a process sends towards `d`. */
  function Outgoing(s: seq<real>, w: nat, h: nat, d: Direction): (m: seq<real>)
    requires |s| == Size(w, h) && w >= 1 && h >= 1
    ensures |m| == EdgeLength(w, h, d)
  {
    RegionsInRange(w, h, d);
    Pack(s, SendRegion(w, h, d))
  }

  /** The sends and the receives of one exchange touch disjoint cells, so
      what is sent does not depend on whether the receives have completed:
      the non-blocking calls on the one buffer do not race. */
  lemma SendsUnaffected(s: seq<real>, w: nat, h: nat, inbox: Inbox, d: Direction)
    requires |s| == Size(w, h) && InboxFits(inbox, w, h) && w >= 1 && h >= 1
    ensures Outgoing(Receive(s, w, h, inbox), w, h, d) == Outgoing(s, w, h, d)
  {
    SendRegionInterior(w, h, d);
    forall i | 0 <= i < EdgeLength(w, h, d)
      ensures Outgoing(Receive(s, w, h, inbox), w, h, d)[i] == Outgoing(s, w, h, d)[i]
    {
      var k := SendRegion(w, h, d)[i];
      assert k in SendRegion(w, h, d);
      ReceiveKeepsInteriorAndCorners(s, w, h, inbox, k);
    }
  }

  /** The grids of all processes, indexed by rank, each with the local
      size of the decomposition. */
  predicate Grids(gs: seq<seq<real>>, px: int, py: int, w: nat, h: nat)
  {
    ValidGrid(px, py) && |gs| == px * py && forall r | 0 <= r < |gs| :: |gs[r]| == Size(w, h)
  }

  /** The four directions. */
  const Directions: set<Direction> := {North, South, East, West}

  /** The value of cell (i, j) of grid `s`. */
  function At(s: seq<real>, w: nat, h: nat, i: int, j: int): real
    requires |s| == Size(w, h) && InGrid(w, h, i, j)
  {
    IndInRange(w, h, i, j);
    s[Ind(w, i, j)]
  }

  /** The message the neighbour of `rank` in direction `d` sends it. */
  function FromNeighbor(gs: seq<seq<real>>, px: int, py: int, w: nat, h: nat, rank: int, d: Direction): (m: seq<real>)
    requires Grids(gs, px, py, w, h) && ValidRank(rank, px, py) && w >= 1 && h >= 1
    requires NeighborOf(rank, px, py, d).Rank?
    ensures |m| == EdgeLength(w, h, d)
  {
    NeighborOnEdge(rank, px, py, d);
    Outgoing(gs[NeighborOf(rank, px, py, d).r], w, h, Opposite(d))
  }

  /** The inbox of `rank` when every process sends its grid in `gs`: from
      each direction with a neighbour, the message that neighbour sends
      towards the opposite direction. */
  function InboxOf(gs: seq<seq<real>>, px: int, py: int, w: nat, h: nat, rank: int): (inbox: Inbox)
    requires Grids(gs, px, py, w, h) && ValidRank(rank, px, py) && w >= 1 && h >= 1
    ensures InboxFits(inbox, w, h)
  {
    var inbox := map d | d in Directions && NeighborOf(rank, px, py, d).Rank? ::
      FromNeighbor(gs, px, py, w, h, rank, d);
    inbox
  }

  /** The messages a process with grid `s` sends: towards each direction
      with a neighbour, its boundary row or column on that side. A send to
      `MPI_PROC_NULL` goes nowhere and has no entry. */
  function Outbox(s: seq<real>, px: int, py: int, w: nat, h: nat, rank: int): (out: Inbox)
    requires |s| == Size(w, h) && ValidGrid(px, py) && ValidRank(rank, px, py) && w >= 1 && h >= 1
  {
    map d | d in Directions && NeighborOf(rank, px, py, d).Rank? :: Outgoing(s, w, h, d)
  }

  /** Messages match up: everything `rank` receives from direction `d` is
      the message its neighbour there sends towards the opposite direction,
      and that neighbour's neighbour in the opposite direction is `rank`
      itself, so the send is addressed to it. */
  lemma InboxFromOutboxes(gs: seq<seq<real>>, px: int, py: int, w: nat, h: nat, rank: int, d: Direction)
    requires Grids(gs, px, py, w, h) && ValidRank(rank, px, py) && w >= 1 && h >= 1
    requires d in InboxOf(gs, px, py, w, h, rank)
    ensures var nb := NeighborOf(rank, px, py, d).r;
      && NeighborOf(rank, px, py, d).Rank?
      && ValidRank(nb, px, py)
      && NeighborOf(nb, px, py, Opposite(d)) == Rank(rank)
      && Opposite(d) in Outbox(gs[nb], px, py, w, h, nb)
      && InboxOf(gs, px, py, w, h, rank)[d] == Outbox(gs[nb], px, py, w, h, nb)[Opposite(d)]
  {
    var nb := NeighborOf(rank, px, py, d).r;
    NeighborOnEdge(rank, px, py, d);
    NeighborSymmetric(rank, nb, px, py, d);
    InDirections(Opposite(d));
  }

  /** Every direction is one of the four. */
  lemma InDirections(d: Direction)
    ensures d in Directions
  {
    match d
    case North =>
    case South =>
    case East =>
    case West =>
  }

  /** A process receives from exactly the directions in which it has a
      neighbour. */
  lemma InboxOfKeys(gs: seq<seq<real>>, px: int, py: int, w: nat, h: nat, rank: int)
    requires Grids(gs, px, py, w, h) && ValidRank(rank, px, py) && w >= 1 && h >= 1
    ensures forall d :: d in InboxOf(gs, px, py, w, h, rank) <==> NeighborOf(rank, px, py, d).Rank?
  {
    forall d
      ensures d in InboxOf(gs, px, py, w, h, rank) <==> NeighborOf(rank, px, py, d).Rank?
    {
      InDirections(d);
    }
  }

  /** A process sends towards exactly the directions in which it has a
      neighbour, and no message at all towards `MPI_PROC_NULL`. */
  lemma OutboxKeys(s: seq<real>, px: int, py: int, w: nat, h: nat, rank: int)
    requires |s| == Size(w, h) && ValidGrid(px, py) && ValidRank(rank, px, py) && w >= 1 && h >= 1
    ensures forall d :: d in Outbox(s, px, py, w, h, rank) <==> NeighborOf(rank, px, py, d).Rank?
  {
    forall d
      ensures d in Outbox(s, px, py, w, h, rank) <==> NeighborOf(rank, px, py, d).Rank?
    {
      InDirections(d);
    }
  }

  /** The halo round trip: after the exchange, the `m`-th halo cell facing
      `d` holds the `m`-th boundary cell the neighbour there sends back
      towards this process (which it addresses to this very rank). */
  lemma ExchangeRoundTrip(gs: seq<seq<real>>, px: int, py: int, w: nat, h: nat, rank: int, d: Direction, m: int)
    requires Grids(gs, px, py, w, h) && ValidRank(rank, px, py) && w >= 1 && h >= 1
    requires NeighborOf(rank, px, py, d).Rank? && 0 <= m < EdgeLength(w, h, d)
    ensures var nb := NeighborOf(rank, px, py, d).r;
      && ValidRank(nb, px, py)
      && NeighborOf(nb, px, py, Opposite(d)) == Rank(rank)
      && var recv, send := RecvCell(w, h, d, m), SendCell(w, h, Opposite(d), m);
      && InGrid(w, h, recv.0, recv.1) && HaloIndex(w, h, Ind(w, recv.0, recv.1))
      && Interior(w, h, send.0, send.1)
      && At(Receive(gs[rank], w, h, InboxOf(gs, px, py, w, h, rank)), w, h, recv.0, recv.1)
         == At(gs[nb], w, h, send.0, send.1)
  {
    var nb := NeighborOf(rank, px, py, d).r;
    NeighborOnEdge(rank, px, py, d);
    NeighborSymmetric(rank, nb, px, py, d);
    var inbox := InboxOf(gs, px, py, w, h, rank);
    RegionCells(w, h, d, m);
    RegionCells(w, h, Opposite(d), m);
    RecvRegionHalo(w, h, d);
    assert RecvRegion(w, h, d)[m] in RecvRegion(w, h, d);
    ReceiveAt(gs[rank], w, h, inbox, d, m);
    SendRegionInterior(w, h, Opposite(d));
    var send := SendCell(w, h, Opposite(d), m);
    IndDecode(w, send.0, send.1);
    assert SendRegion(w, h, Opposite(d))[m] in SendRegion(w, h, Opposite(d));
  }

  /** Global coordinates of cell `c` of the local grid of block `b`; the
      halo maps to the cells just outside the block. */
  function ToGlobal(b: Block, c: (int, int)): (int, int)
  {
    (b.offx + c.0 - 1, b.offy + c.1 - 1)
  }

  /** The cell the exchange fills is the right one: the `m`-th halo cell
      facing `d` and the `m`-th cell the neighbour sends back are the same
      cell of the global grid, and it lies in the neighbour's block. */
  lemma HaloIsNeighborCell(n: int, px: int, py: int, rank: int, d: Direction, m: int)
    requires Divisible(n, px, py) && ValidRank(rank, px, py)
    requires NeighborOf(rank, px, py, d).Rank?
    ensures var nb := NeighborOf(rank, px, py, d).r;
      var w, h := n / px, n / py;
      && ValidRank(nb, px, py)
      && ToGlobal(BlockOf(n, px, py, rank), RecvCell(w, h, d, m))
         == ToGlobal(BlockOf(n, px, py, nb), SendCell(w, h, Opposite(d), m))
      && (0 <= m < EdgeLength(w, h, d) ==>
           InBlock(BlockOf(n, px, py, nb), ToGlobal(BlockOf(n, px, py, nb), SendCell(w, h, Opposite(d), m)).0,
                   ToGlobal(BlockOf(n, px, py, nb), SendCell(w, h, Opposite(d), m)).1))
  {
    var nb := NeighborOf(rank, px, py, d).r;
    NeighborOnEdge(rank, px, py, d);
    var (rx, ry) := Coords(rank, px, py);
    BlockInGrid(n, px, py, nb);
    StepBlock(n / px, n / py, rx, ry, d, m);
  }

  /** The local-to-global step behind `HaloIsNeighborCell`, for blocks of
      width `w` and height `h` at process coordinates (rx, ry) and one step
      from them in direction `d`. */
  lemma StepBlock(w: nat, h: nat, rx: int, ry: int, d: Direction, m: int)
    ensures var q := Step((rx, ry), d);
      ToGlobal(Block(w, h, rx * w, ry * h), RecvCell(w, h, d, m))
      == ToGlobal(Block(w, h, q.0 * w, q.1 * h), SendCell(w, h, Opposite(d), m))
  {
    match d
    case North => assert (ry - 1) * h == ry * h - h;
    case South => assert (ry + 1) * h == ry * h + h;
    case East => assert (rx + 1) * w == rx * w + w;
    case West => assert (rx - 1) * w == rx * w - w;
  }
}
