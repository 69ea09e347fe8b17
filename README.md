# HybridMPI heat diffusion: a verified model of its integer core

The benchmark `HybridMPI/hybridMPI.c` spreads heat over an n x n grid. It
uses px x py MPI processes, each of which runs OpenMP threads. Every process
does the following:

1. Validates its parameters (`setup`).
2. Finds its coordinates and four neighbours in the process grid.
3. Owns one (n/px) x (n/py) block of the grid, stored with a one-cell halo
   in two flat buffers `aold` and `anew`.
4. Zero-fills both buffers (`grid_first_touch_`).
5. Keeps those of three heat sources that fall in its block
   (`init_sources`).
6. Then, `niters` times:
   - injects `energy` at its sources;
   - exchanges boundary rows and columns with its neighbours;
   - advances a damped five-point stencil into `anew` (`update_grid`);
   - swaps the buffers.

This project models all of that except the runtimes, in Dafny:

- `arith.dfy`: C's truncating `/` and `%` and where they agree with Dafny's.
- `settings.dfy`: `setup`.
- `topology.dfy`: coordinates and neighbours.
- `partition.dfy`: the block decomposition.
- `sources.dfy`: `init_sources`.
- `grid.dfy`: the `ind` macro, the MPI datatypes and the eight transfer
  regions.
- `kernel.dfy`: `grid_first_touch_`, `update_grid` and the injection loop,
  as methods over arrays.
- `exchange.dfy`: the effect of the halo exchange.
- `driver.dfy`: one process, as a class holding the two buffers, with the
  iteration loop, and `main` for one rank from start-up to the final
  reduction.

Cell values are exact reals. What other processes send is a parameter of
each iteration, called an *inbox*: a map from direction to message. A
direction with no entry is a neighbour that is `MPI_PROC_NULL`.

## Model

| member | source | states |
|---|---|---|
| CArith.Quot | HybridMPI/hybridMPI.c:64-65 | C's `/`, truncating toward zero; `QuotRemAgree` and `RemIsSignedMod` relate it to Euclidean division |
| CArith.Rem | HybridMPI/hybridMPI.c:64-65 | C's `%`, with the dividend's sign; `RemBounds` and `RemZeroIffDivides` state its range and its zero test |
| CArith.QuotRemAgree | HybridMPI/hybridMPI.c:64-65 | for a non-negative dividend and a positive divisor, C's `/` and `%` equal the Euclidean ones |
| CArith.RemIsSignedMod | HybridMPI/hybridMPI.c:205-211 | C's `%` is the remainder of the magnitudes carrying the dividend's sign |
| CArith.RemBounds | HybridMPI/hybridMPI.c:205-211 | C's `%` is smaller in magnitude than the divisor and has the dividend's sign |
| CArith.RemZeroIffDivides | HybridMPI/hybridMPI.c:205-211 | C's `n % px` is zero exactly when px divides n, whatever the signs |
| Settings.Setup | HybridMPI/hybridMPI.c:186-218 | usage exactly when argc < 6; otherwise abort 1 exactly when px*py != proc, then abort 2 exactly when px does not divide n, then abort 3 exactly when py does not divide n; success exactly when all pass, returning the inputs unchanged |
| Settings.SetupAcceptsNegativeProcessGrid | HybridMPI/hybridMPI.c:201-212 | with one process, px = py = -1 and n = 4 pass every check; C's n / px is then -4 and the parameters are not well formed |
| Settings.SetupAcceptsEmptyGrid | HybridMPI/hybridMPI.c:205-212 | n = 0 passes every check, although the parameters are not well formed |
| Settings.SetupChecked | HybridMPI/hybridMPI.c:201-218 | corrected `setup`: succeeds exactly when argc >= 6 and n, px, py are positive, px*py == proc and both divide n; agrees with `Setup` on every success and on aborts 1-3, and otherwise aborts with code 4 |
| Topology.NeighborOf | HybridMPI/hybridMPI.c:68-79 | the four neighbour computations; `NeighborOnEdge`, `NeighborSymmetric` and `NeighborsDistinct` state what they give |
| Topology.Coords | HybridMPI/hybridMPI.c:64-65 | rx = rank % px and ry = rank / px (C operators) satisfy 0 <= rx < px, 0 <= ry < py and ry*px + rx == rank |
| Topology.CoordsOfRankAt | HybridMPI/hybridMPI.c:64-65 | coordinates and rank are inverse: the rank at (rx, ry) is valid and decodes back to (rx, ry) |
| Topology.NeighborOnEdge | HybridMPI/hybridMPI.c:68-79 | a neighbour is `MPI_PROC_NULL` exactly on the matching edge (ry == 0 north, ry == py-1 south, rx == 0 west, rx == px-1 east); otherwise it is a different valid rank, one step away in that direction |
| Topology.NeighborSymmetric | HybridMPI/hybridMPI.c:68-79 | B is A's neighbour in direction d exactly when A is B's neighbour in the opposite direction |
| Topology.NeighborsDistinct | HybridMPI/hybridMPI.c:68-79 | neighbours in two different directions are different ranks, so the equally tagged messages of one exchange cannot be confused |
| Partition.Decompose | HybridMPI/hybridMPI.c:82-85 | bx = n / px, by = n / py and the offsets rx*bx, ry*by; `BlockInGrid` and `Tiling` state their properties |
| Partition.BlockOf | HybridMPI/hybridMPI.c:64-65 | the block of a rank from its coordinates; `Owner`, `BlocksDisjoint` and `Tiling` state that the blocks tile the grid |
| Partition.BlockInGrid | HybridMPI/hybridMPI.c:82-85 | with validated parameters every block has positive width and height and lies inside [0, n) x [0, n) |
| Partition.Owner | HybridMPI/hybridMPI.c:82-85 | every cell of the grid lies in the block of a valid rank |
| Partition.BlocksDisjoint | HybridMPI/hybridMPI.c:82-85 | a cell that lies in the blocks of two ranks means the two ranks are the same |
| Partition.Tiling | HybridMPI/hybridMPI.c:82-85 | the blocks of all ranks cover [0, n) x [0, n), are pairwise disjoint and stay inside it |
| Sources.GlobalSources | HybridMPI/hybridMPI.c:225-230 | the three source positions; `GlobalSourcesInGrid` states that they are cells of the grid |
| Sources.GlobalSourcesInGrid | HybridMPI/hybridMPI.c:225-230 | for n >= 1 the three sources (n/2, n/2), (n/3, n/3), (4n/5, 8n/9) are cells of the grid |
| Sources.LocalSources | HybridMPI/hybridMPI.c:232-240 | the filter keeps at most as many sources as it is given, and each kept one lies in [1, bx] x [1, by] |
| Sources.IsLocalIffInBlock | HybridMPI/hybridMPI.c:233-235 | the program's test on locx, locy is membership of the block |
| Sources.LocalSourcesMembers | HybridMPI/hybridMPI.c:232-240 | a point is kept exactly when some source lies in the block and translates to it (both directions) |
| Sources.LocalSourcesAppend | HybridMPI/hybridMPI.c:232-240 | the filter keeps input order: the sources of s + t give those of s, then those of t |
| Sources.LocalSourcesSnoc | HybridMPI/hybridMPI.c:235-238 | one more source is appended, translated by (-offx + 1, -offy + 1), exactly when it is local |
| Sources.SourceKeptOnce | HybridMPI/hybridMPI.c:225-240 | across the decomposition each source is kept by exactly the rank that owns its cell |
| Sources.KeepLocal | HybridMPI/hybridMPI.c:232-242 | the loop leaves the local sources, translated and in order, in the first locnsources entries and changes no other entry |
| Sources.InitSources | HybridMPI/hybridMPI.c:221-243 | `sources` holds the three global sources; `locsources` holds the local ones; 0 <= locnsources <= 3 |
| Grid.Ind | HybridMPI/hybridMPI.c:10 | the row-major `ind` macro; `IndDecode`, `IndInRange`, `IndOnto` and `IndBijective` state that it is a bijection onto the buffer |
| Grid.IndDecode | HybridMPI/hybridMPI.c:10 | `ind(i, j)` decodes back to column i and row j |
| Grid.IndInRange | HybridMPI/hybridMPI.c:10 | `ind` of a cell of the padded grid is an index of the (bx+2)*(by+2) array |
| Grid.IndOnto | HybridMPI/hybridMPI.c:88-89 | every index of the array is `ind` of the cell it decodes to |
| Grid.IndBijective | HybridMPI/hybridMPI.c:88-89 | `ind` maps the padded grid one-to-one onto [0, (bx+2)*(by+2)) |
| Grid.NorthSouthType | HybridMPI/hybridMPI.c:100 | the contiguous type of bx cells; `RegionCells` states the cells it addresses |
| Grid.EastWestType | HybridMPI/hybridMPI.c:105 | the vector type of by cells with stride bx+2; `RegionCells` states the cells it addresses |
| Grid.SendStart | HybridMPI/hybridMPI.c:123-130 | the four send offsets; `SendRegionInterior` and `RegionShapes` state that they send interior boundary cells shaped like the opposite receive |
| Grid.RecvStart | HybridMPI/hybridMPI.c:131-138 | the four receive offsets; `RecvRegionHalo`, `RecvRegionsDisjoint` and `RecvRegionsCoverHalo` state that they partition the non-corner halo |
| Grid.RegionCells | HybridMPI/hybridMPI.c:100-105 | the contiguous type of bx cells and the vector type of by cells with stride bx+2, from the eight start offsets, address exactly the boundary rows and columns |
| Grid.RegionsInRange | HybridMPI/hybridMPI.c:123-138 | every cell a transfer addresses lies inside the buffer |
| Grid.SendRegionInterior | HybridMPI/hybridMPI.c:123-130 | every cell sent is an interior cell |
| Grid.RecvRegionHalo | HybridMPI/hybridMPI.c:131-138 | every cell received is a halo cell and no corner |
| Grid.RecvRegionsDisjoint | HybridMPI/hybridMPI.c:131-138 | the four receive regions are pairwise disjoint |
| Grid.RecvRegionsCoverHalo | HybridMPI/hybridMPI.c:131-138 | together the receive regions cover every halo cell except the corners |
| Grid.RegionShapes | HybridMPI/hybridMPI.c:100-105 | a region sent towards d has the datatype and length of the region received from the opposite side; no region names a cell twice |
| Kernel.FirstTouch | HybridMPI/hybridMPI.c:270-277 | every cell of the buffer, halo included, is 0 |
| Kernel.TouchRow | HybridMPI/hybridMPI.c:273-275 | the inner loop zeroes one more row: the zeroed prefix grows from the row's first cell by bx+2 cells, and every cell after the row keeps its value |
| Kernel.StencilValue | HybridMPI/hybridMPI.c:257-259 | the damped five-point formula; `StencilFrame` states where it applies |
| Kernel.Stencil | HybridMPI/hybridMPI.c:255-262 | the grid `update_grid` writes; `StencilFrame`, `StencilIgnoresCorners` and `UpdateGrid` state its frame and that the loop computes it |
| Kernel.InteriorSum | HybridMPI/hybridMPI.c:249-260 | the heat `update_grid` accumulates; `InteriorSumZero` and `UpdateGrid` state its value |
| Kernel.UpdateGrid | HybridMPI/hybridMPI.c:246-265 | `anew` becomes the stencil of `aold` and old `anew`; `aold` is not written; the returned heat is the sum of the new interior in visiting order |
| Kernel.StencilFrame | HybridMPI/hybridMPI.c:255-262 | the update changes no halo cell of `anew`; each interior cell becomes half its value plus an eighth of each of its four neighbours in `aold` |
| Kernel.StencilIgnoresCorners | HybridMPI/hybridMPI.c:257-259 | the update never reads a corner of `aold`: old grids differing only in corners give the same result |
| Kernel.InteriorSumZero | HybridMPI/hybridMPI.c:260 | a zero grid holds zero heat |
| Kernel.Injected | HybridMPI/hybridMPI.c:114-116 | the grid after injection; `InjectedCell`, `HitsInterior` and `InjectSources` state what it adds and where |
| Kernel.InjectedCell | HybridMPI/hybridMPI.c:114-116 | injection adds `energy` to a cell once for each local source on it, and changes no other cell |
| Kernel.HitsInterior | HybridMPI/hybridMPI.c:114-116 | only interior cells carry a source, so injection leaves the halo unchanged |
| Kernel.InjectSources | HybridMPI/hybridMPI.c:114-116 | the loop leaves `aold` equal to the injected grid |
| Exchange.Outgoing | HybridMPI/hybridMPI.c:123-130 | the message one `MPI_Isend` transmits towards d: the boundary region on that side, of the length of that side; `SendsUnaffected` and `InboxFromOutboxes` state its properties |
| Exchange.Outbox | HybridMPI/hybridMPI.c:123-130 | the four sends of one exchange, a message towards each direction that has a neighbour; `OutboxKeys` and `InboxFromOutboxes` state its properties |
| Exchange.OutboxKeys | HybridMPI/hybridMPI.c:123-130 | a process sends towards exactly the directions in which it has a neighbour; a send to `MPI_PROC_NULL` transmits nothing |
| Exchange.Pack | HybridMPI/hybridMPI.c:123-130 | what a send of a region transmits; `PackScatter` and `ScatterPack` relate it to a receive |
| Exchange.Scatter | HybridMPI/hybridMPI.c:131-138 | what a receive into a region writes; `ScatterAt` and `ScatterOutside` state which cells change and how |
| Exchange.Receive | HybridMPI/hybridMPI.c:131-139 | the four receives, from the directions that have a neighbour; `ReceiveAt`, `ReceiveOutside` and `ReceiveKeepsInteriorAndCorners` state the result |
| Exchange.ScatterOutside | HybridMPI/hybridMPI.c:131-138 | a receive writes no cell outside its region |
| Exchange.ScatterAt | HybridMPI/hybridMPI.c:131-138 | in a region without repeats, the i-th cell receives the i-th value |
| Exchange.PackScatter | HybridMPI/hybridMPI.c:123-138 | sending a region just received into returns the message |
| Exchange.ScatterPack | HybridMPI/hybridMPI.c:123-138 | receiving into a region what it already holds changes nothing |
| Exchange.ReceiveAt | HybridMPI/hybridMPI.c:131-139 | after the receives, the m-th cell of the halo facing d holds the m-th value of the message from d |
| Exchange.ReceiveOutside | HybridMPI/hybridMPI.c:131-139 | the receives change no cell outside the regions of the messages that arrived |
| Exchange.ReceiveKeepsInteriorAndCorners | HybridMPI/hybridMPI.c:131-139 | the receives never change an interior cell or a corner |
| Exchange.SendsUnaffected | HybridMPI/hybridMPI.c:123-139 | what is sent does not depend on whether the receives on the same buffer have completed |
| Exchange.InboxOfKeys | HybridMPI/hybridMPI.c:68-79 | a process receives from exactly the directions in which it has a neighbour |
| Exchange.InboxFromOutboxes | HybridMPI/hybridMPI.c:123-138 | what a rank receives from d is what its neighbour there sends towards the opposite side, a send addressed to that rank |
| Exchange.ExchangeRoundTrip | HybridMPI/hybridMPI.c:123-139 | after the exchange, the m-th halo cell facing d equals the m-th boundary cell of the neighbour there, which is interior to it |
| Exchange.HaloIsNeighborCell | HybridMPI/hybridMPI.c:82-85 | that halo cell and that neighbour cell are the same cell of the global grid, inside the neighbour's block |
| Driver.Advance | HybridMPI/hybridMPI.c:111-149 | one iteration of the driver loop on the two buffers; `AdvanceKeepsFixed`, `AdvanceKeepsBoundary` and `Process.Iterate` state its properties and that the code computes it |
| Driver.Simulate | HybridMPI/hybridMPI.c:111-151 | one iteration per inbox; `SimulateKeepsBoundary`, `Process.Run` and `Execute` state its properties and that the code computes it |
| Driver.AdvanceKeepsFixed | HybridMPI/hybridMPI.c:111-149 | one iteration leaves every corner and every halo cell facing the process-grid edge as it was in both buffers |
| Driver.AdvanceKeepsBoundary | HybridMPI/hybridMPI.c:111-149 | one iteration keeps that fixed boundary at zero in both buffers |
| Driver.SimulateKeepsBoundary | HybridMPI/hybridMPI.c:92-93 | any number of iterations keeps the fixed boundary at zero: the cold boundary condition set by first touch |
| Driver.Process.constructor | HybridMPI/hybridMPI.c:44-96 | the block and the neighbours are those of the rank; both buffers are fresh and zero; the sources are as `init_sources` leaves them; the program's `heat` is unset, the corrected one 0 |
| Driver.Process.Iterate | HybridMPI/hybridMPI.c:111-149 | one iteration: the buffers are swapped, not copied; the new pair is inject, exchange, update; the messages sent are the injected boundary; heat is the new grid's, and the program's `heat` holds what `update_grid` returned |
| Driver.Process.Run | HybridMPI/hybridMPI.c:111-151 | the loop keeps the same two buffers and ends in the state of one iteration per inbox; the corrected `heat` is the heat of the last grid written; the program's `heat` takes that value when niters > 0 and is untouched otherwise |
| Driver.Execute | HybridMPI/hybridMPI.c:64-165 | `main` for one rank up to the reduction: the process is that rank's, with the given parameters and block; the buffers are one iteration per inbox applied to two zero grids; the corrected `heat` is the last grid's; the program's `heat` is that value when niters > 0 and unset otherwise |
| Driver.NoIterationLeavesHeatUnset | HybridMPI/hybridMPI.c:165 | `setup` accepts niters = 0, and such a run reaches the reduction with the program's `heat` unset, where the corrected `heat` is 0 |

## Left out

- The MPI runtime is not modelled:
  - initialisation and finalisation, `MPI_Abort`;
  - datatype commit and free;
  - `MPI_Isend`, `MPI_Irecv` and `MPI_Waitall`, beyond the cells they read and write;
  - the final `MPI_Allreduce` of `heat`.
- What a process receives is a parameter of each iteration. Message delivery, non-blocking timing and the lockstep of all processes are not one modelled state. `Exchange.InboxOf` builds the inbox the other processes' grids give.
- OpenMP is not modelled; every parallel loop is given its sequential meaning.
  - In `init_sources` the shared counter `locnsources` is updated by several threads without protection. That race is not captured.
  - In the injection loop, two coinciding sources race on one cell (all three coincide for n = 1). The model adds the energy once per source.
- Floating point is not modelled: cells are exact reals, so rounding and the order of the `heat` reduction are not captured. `energy` converts exactly.
- 32-bit `int` overflow is not modelled; integers are unbounded. The program overflows on:
  - `n * 8` in `init_sources` for n > 268435455;
  - `px * py` in `setup`;
  - the buffer size `(bx + 2) * (by + 2)`.
- `atoi` parsing, `printf`/`fprintf` output, the timers, and `malloc`/`free` are not modelled. Parameters arrive as integers.
- `setup`'s `rank` argument only selects which process prints the usage line and is dropped.
- Settings.Setup: requires at least one process, which the runtime guarantees.
- Settings.SetupChecked: abort code 4 is not in the program. It is the smallest change that rejects the inputs of the first two findings.
- Exchange.Outgoing and the members built on it require bx, by >= 1, which well-formed parameters guarantee.
- Driver.Process: models one process. The global heat sum and its printing are not modelled.

## Findings

| source | as written | input that shows it | evidently intended | confidence | as-written member | corrected member |
|---|---|---|---|---|---|---|
| HybridMPI/hybridMPI.c:201-212 | `setup` checks only px*py == proc and divisibility, so negative process-grid dimensions pass | one process, n = 4, px = py = -1: every check passes, bx = n / px = -4, and the north-south datatype is then created with a negative count | px and py at least 1 | not executed; high | Settings.SetupAcceptsNegativeProcessGrid | Settings.SetupChecked |
| HybridMPI/hybridMPI.c:205-212 | an empty grid passes, since 0 % px == 0 | one process, n = 0, px = py = 1: accepted, and each block is 0 x 0 | n at least 1 | not executed; high | Settings.SetupAcceptsEmptyGrid | Settings.SetupChecked |
| HybridMPI/hybridMPI.c:165 | `heat` is declared without a value and assigned only inside the iteration loop, yet always reduced | niters = 0 (n = 4, energy = 1, px = py = 1 on one process): the reduction reads an indeterminate `heat` | `heat` starts at 0.0, the heat of the zero grid | not executed; high | Driver.NoIterationLeavesHeatUnset | Driver.Execute |
