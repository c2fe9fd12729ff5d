# Verification model of the Orszag-Tang MHD solver and of small ADIOS2 algorithms

This project models the two-dimensional magnetohydrodynamics solver that ships as an ADIOS2
example, and six smaller algorithms of the same repository, and proves properties of them.

## What is modelled

**The solver** (`examples/mhd_orszag_tang/src/mhd2d.cpp`) appears at four levels, each proved to
carry out the one above it.

1. `PeriodicGrid` is the reference: one step of the scheme on a bare periodic grid of cells, with
   no ghost cells, no stored fluxes and no ranks. `Physics` holds the conversions, fluxes, Riemann
   solvers and the limiter that it uses, branch by branch as the source has them.
2. `RankField` and `Cluster` are the haloed and distributed form as values: one ghosted field per
   rank, the halo fill, the ring exchange of edge rows, and `advance` on all ranks in lockstep.
3. `Layout` and `Mhd2d` are the solver object of one rank: the four flat arrays with the source's
   index formula, updated in place by nested loops, face fluxes and message buffers stored flat.
4. `World` is the set of solver objects of all ranks, exchanging buffers in lockstep, and `Driver`
   the main loop around it, with its time steps and its writes.

On the reference are proved: conservation over whole runs (`Conservation`), density bounds under
the CFL limit (`Positivity`), transposition symmetry and free-stream preservation (`Symmetry`),
and reflection symmetry (`Reflection`); on single faces, the properties these rest on
(`FaceLemmas`) and agreement of the hand-written fluxes with independent definitions
(`FluxLaws`). `Reductions` proves that the time step and the scalar diagnostics come out the same
on any number of ranks, `Driver` that whole runs write the same; `DiagnosticLaws` says what the
reported numbers mean and which of them a run conserves. Because levels 2 to 4 refine level 1, these
results hold of the in-place distributed program as well, whenever each rank owns as many rows as
the scheme reaches; `RestLayers` and `NarrowRanks` show that this condition is exact.

**The smaller algorithms** are the one-block test for HDF5 selections (`BlockSelection`), the
driver's time loop with its dump cadence (`TimeLoop`), the 1D and 2D array decompositions
(`Decomposition`, `RowSplit`), the row-major/column-major flip of the Matlab reader
(`MatlabOrder`), the step protocol of the Python `Stream` (`StreamSteps`), and the statistics
script that turns rows of statistics into columns (`StatsColumns`). `Sums` and `Arithmetic` hold
the grid sums, maxima and integer facts they share, `MachineWords` and `Wrappers` the sizes of
machine integers and the option and result types.

## Conventions

- A `double` is an exact `real`, so every `isfinite` test holds. The library's square root is the
  parameter `sqrt`; a lemma that needs it non-negative (`NonNegativeRoot`) or a true root
  (`SquareRoot`) says so, and all others hold for any function.
- `Params` are the solver's preconditions: `gamma > 1`, `rho_floor > 0`, `p_floor >= 0`, a domain
  of positive extent, and `2 <= ng <= nx, ny`. The ghost width is not fixed to 2.
- A loop over the nine variables of one cell is an operation on the record `State`. Loops over
  cells, faces, ghost cells and buffer places are loops.
- Block detection, the decompositions and the Matlab reader compute modulo 2^64 and truncate to 32
  bits as the C does. The solver's integers are unbounded in the model; they are the source's as
  long as its array indices fit an `int`, which `Mhd2d.RankIndicesFitIff` makes exact.

## Where the code falls short of its promise

- The exchange reads a neighbour's edge rows assuming it owns at least `ng` of them; the
  constructor only checks `ny >= size`. `Cluster.ExchangeRightIffWide` shows that the exchange
  fills every halo on all inputs exactly when `ny / size >= ng`. What a run needs is less:
  `NarrowRanks.RunRightIffWide` shows that it is right with the first-order scheme for every
  accepted number of ranks, and with the second-order scheme exactly when `ny / size >= 2`;
  `NarrowRanks.NarrowRunDiffers` gives the failing data.
- `idx` computes in `int` while the arrays are sized in `size_t`. `Layout.IdxFitsIff` and
  `Mhd2d.RankIndicesFitIff` show that all indices fit exactly when a rank's field has at most 2^31
  entries, and only then do the results on flat arrays apply; `Mhd2d.LargeGridOverflows` is a grid
  the constructor and the driver accept that is too large for one rank.
- `DecomposeArray` cuts the array's sizes to 32 bits, and the check of the process count
  multiplies in 32 bits. `Decomposition.ReadOnceIff` gives the exact condition under which the
  ranks read the whole array; `WideArrayPartlyRead` and `WrappedCountAccepted` are inputs that
  fail it.
- The block test compares a 64-bit product with the point count and returns it as an `int`.
  `BlockSelection.BlockDetectionExact` gives the exact condition under which the answer is right.
  `OverflowFoolsDetection` is a selection of two points that passes for a block,
  `TruncationHidesBlock` a block that does not pass.
- `swap_order` moves a `size_t` through an `int`. `MatlabOrder.SwappedIsReversed` and
  `MatlabOrder.SwapInvolution` say for exactly which arrays it reverses, and is undone by itself;
  `MatlabOrder.DeliveredIffGetsThrough` says for exactly which requests the reader asks for the
  right selection, and `LargeDimensionCorrupts` is one it gets wrong.
- HLL takes the left flux when both outer waves are at rest. With a true root this breaks its
  symmetry under reflection only when the pressure floor is zero, and then exactly between cells
  at rest, without pressure and field, that differ in psi (`FluxLaws.ReflectionFailsIffInert`).

## Model

| member | source | states |
|---|---|---|
| Conservation.RunTotals | examples/mhd_orszag_tang/src/mhd2d.cpp:585-645 | over any sequence of steps momentum and field totals never change, mass and energy never drop and are kept exactly when no floor fires in any step, and psi is damped by the product of the per-step factors |
| Conservation.StepTotals | examples/mhd_orszag_tang/src/mhd2d.cpp:585-645 | the same for one step, for both integrators, with psi multiplied by 1-d or (1+(1-d)^2)/2 |
| Conservation.RhsTotal | examples/mhd_orszag_tang/src/mhd2d.cpp:494-510 | the discrete divergence telescopes: the right-hand side sums to zero over the grid in every variable but psi, where only the damping is left |
| Conservation.EdgesAgree | examples/mhd_orszag_tang/src/mhd2d.cpp:417-492 | face 0 and face nx of every row, and face 0 and face ny of every column, carry the same flux, reconstruction included |
| Conservation.RectangleKeeps | examples/mhd_orszag_tang/src/mhd2d.cpp:494-510 | conservation is local: in any rectangle of cells the right-hand side sums to what enters through the four sides, divided by the cell widths, less the damping of psi inside |
| Conservation.EulerTotal | examples/mhd_orszag_tang/src/mhd2d.cpp:595-604 | a forward step changes each total by dt times the total of the right-hand side |
| Conservation.HeunTotal | examples/mhd_orszag_tang/src/mhd2d.cpp:629-641 | the second stage averages the totals of both states and adds half the increment |
| Conservation.FloorsTotal | examples/mhd_orszag_tang/src/mhd2d.cpp:377-390 | flooring changes no total but mass and energy, only raises these, and keeps both exactly when every cell is admissible |
| Sums.DivergenceTelescopes | examples/mhd_orszag_tang/src/mhd2d.cpp:494-510 | on any grid whose opposite edges carry equal fluxes, the flux differences of all cells cancel in the double sum |
| Symmetry.RunTransposes | examples/mhd_orszag_tang/src/mhd2d.cpp:585-645 | swapping the grid axes, the x and y components and the grid parameters commutes with any run |
| Symmetry.AdvanceTransposes | examples/mhd_orszag_tang/src/mhd2d.cpp:585-645 | the same for one step, for both solvers and both reconstructions |
| Symmetry.FreeStream | examples/mhd_orszag_tang/src/mhd2d.cpp:585-645 | a uniform admissible field stays uniform over any run, with psi damped and nothing else changed |
| Symmetry.UniformStep | examples/mhd_orszag_tang/src/mhd2d.cpp:585-645 | the same for one step, admissibility included |
| Symmetry.UniformRhs | examples/mhd_orszag_tang/src/mhd2d.cpp:392-511 | on a uniform field the right-hand side is zero but for the damping of psi |
| Positivity.DensityLossBound | examples/mhd_orszag_tang/src/mhd2d.cpp:591-604 | first order, dt within the CFL step: before the floors act no cell loses more than 2 cfl times its floored density, for Rusanov and for HLL in all branches |
| Positivity.DensityLowerBound | examples/mhd_orszag_tang/src/mhd2d.cpp:591-604 | so a cell at or above the density floor keeps at least (1 - 2 cfl) of its density |
| Positivity.DensityStaysNonNegative | examples/mhd_orszag_tang/src/mhd2d.cpp:591-604 | with cfl at most 1/2 no density turns negative before the floors act |
| Positivity.DensityOverRuns | examples/mhd_orszag_tang/src/mhd2d.cpp:585-609 | the density bound holds in every cell at every step of a run that respects the CFL step |
| Positivity.AdvanceAboveFloor | examples/mhd_orszag_tang/src/mhd2d.cpp:606-644 | after any step every density is at or above the floor |
| Positivity.OutflowBound | examples/mhd_orszag_tang/src/mhd2d.cpp:217-261 | the mass leaving a cell through two opposite faces is at most its floored density times the largest signal speed of the three cells |
| Positivity.SpeedIgnoresFloors | examples/mhd_orszag_tang/src/mhd2d.cpp:209-215 | regularizing a cell does not change its signal speed, so the CFL speed bounds the speeds the fluxes see |
| Positivity.SpeedsBounded | examples/mhd_orszag_tang/src/mhd2d.cpp:556-571 | the speed the time step is computed from bounds the signal speed of every cell in both directions |
| Positivity.SignalSpeedIs | examples/mhd_orszag_tang/src/mhd2d.cpp:209-215 | the signal speed is the speed of the faster of the two fast waves, v - c and v + c |
| Positivity.FastestIs | examples/mhd_orszag_tang/src/mhd2d.cpp:556-571 | the speed the step is computed from is attained: it is the largest among the wave speeds of all cells in both directions, the cleaning speed and the smallest speed allowed |
| Positivity.TimeStepAttained | examples/mhd_orszag_tang/src/mhd2d.cpp:549-583 | a positive fixed step is taken as it is; else some speed of the grid crosses exactly cfl cell widths in the step |
| Positivity.TimeStepIsLongest | examples/mhd_orszag_tang/src/mhd2d.cpp:573-582 | and it is the longest step in which no speed crosses more |
| Positivity.StepWithinCfl | examples/mhd_orszag_tang/src/mhd2d.cpp:581-582 | a step no longer than the computed one moves the fastest wave at most cfl cell widths |
| FaceLemmas.MassFluxBounds | examples/mhd_orszag_tang/src/mhd2d.cpp:217-261 | with all waves slower than a, either solver's mass flux takes at most rho (v+a)/2 from the upwind side, from both sides |
| FaceLemmas.HllWeight | examples/mhd_orszag_tang/src/mhd2d.cpp:255-259 | the middle HLL branch weighs a state by at most the share it has when the wave fan is widened to [-a, a] |
| FaceLemmas.RiemannConsistent | examples/mhd_orszag_tang/src/mhd2d.cpp:217-261 | both solvers return the physical flux when the two sides agree |
| FaceLemmas.FluxMirrors | examples/mhd_orszag_tang/src/mhd2d.cpp:153-193 | the y flux is the x/y mirror of the x flux |
| FaceLemmas.RiemannMirrors | examples/mhd_orszag_tang/src/mhd2d.cpp:217-261 | both solvers commute with the x/y mirror |
| FaceLemmas.FaceFluxMirrors | examples/mhd_orszag_tang/src/mhd2d.cpp:417-492 | so does a whole face: reconstruction, regularization and solver |
| FaceLemmas.FastSpeedSolvesDispersion | examples/mhd_orszag_tang/src/mhd2d.cpp:195-207 | the two inner clamps never act and the returned speed squared is the larger root of the fast-wave dispersion relation |
| FaceLemmas.MinmodLimits | examples/mhd_orszag_tang/src/mhd2d.cpp:263-270 | minmod exceeds neither argument, keeps their common sign and is zero when they differ in sign |
| FaceLemmas.MinmodIsLimited | examples/mhd_orszag_tang/src/mhd2d.cpp:263-270 | minmod is the greatest limiter: the one value farthest from zero that lies between zero and each argument |
| FaceLemmas.ReconstructionIsLimited | examples/mhd_orszag_tang/src/mhd2d.cpp:428-443 | in every variable, on both sides of a face, twice the step from cell to face is the limited slope of the cell's two differences |
| FaceLemmas.LinearIsExact | examples/mhd_orszag_tang/src/mhd2d.cpp:428-443 | on linear data both sides of a face hold the midpoint |
| FaceLemmas.ReconstructionAddsNoExtrema | examples/mhd_orszag_tang/src/mhd2d.cpp:428-443 | at every face both reconstructed values of each variable lie between the adjacent cell values and keep their order |
| FaceLemmas.ReconstructionKeepsDensityPositive | examples/mhd_orszag_tang/src/mhd2d.cpp:428-443 | positive neighbouring densities reconstruct to positive densities |
| Physics.PrimitiveRoundTrip | examples/mhd_orszag_tang/src/mhd2d.cpp:108-151 | primitive to conserved and back gives everything back but what lies below a floor, which comes back at the floor |
| Physics.RegularizeProjects | examples/mhd_orszag_tang/src/mhd2d.cpp:377-390 | the floor projection keeps momentum, field and psi, only raises density and energy, and gives an admissible cell |
| Physics.RegularizeLeast | examples/mhd_orszag_tang/src/mhd2d.cpp:377-390 | the projection raises no more than it must: its density is the least admissible one not below the cell's, and at that density its energy the least |
| Physics.RegularizeFixesExactlyAdmissible | examples/mhd_orszag_tang/src/mhd2d.cpp:377-390 | conserved to primitive and back leaves a cell alone exactly when it is admissible |
| Physics.RegularizeIdempotent | examples/mhd_orszag_tang/src/mhd2d.cpp:377-390 | flooring twice is flooring once, and does not change the primitive variables |
| FluxLaws.FluxIsIdealMhd | examples/mhd_orszag_tang/src/mhd2d.cpp:153-193 | on admissible cells both hand-written branches are one vector formula of ideal MHD: symmetric stress, antisymmetric induction, enthalpy plus Poynting flux |
| FluxLaws.Poynting | examples/mhd_orszag_tang/src/mhd2d.cpp:174-188 | the energy flux of the field, (B x (v x B)).n, is B^2 (v.n) - (v.B)(B.n) |
| FluxLaws.HllSatisfiesJumps | examples/mhd_orszag_tang/src/mhd2d.cpp:255-259 | one variable of the HLL formula satisfies the jump conditions across both outer waves with the average state between them |
| FluxLaws.HllIs | examples/mhd_orszag_tang/src/mhd2d.cpp:234-260 | the HLL solver, all nine variables: the left flux if no wave runs left, else the right one if none runs right, else the flux given by the jumps across both outer waves around one state |
| FluxLaws.RusanovIs | examples/mhd_orszag_tang/src/mhd2d.cpp:224-232 | the Rusanov solver: the same jumps across waves at plus and minus the larger signal speed, the mean of the fluxes if that is zero |
| FluxLaws.FluxReflects | examples/mhd_orszag_tang/src/mhd2d.cpp:153-193 | seen in a mirror normal to the face, the flux runs the other way |
| FluxLaws.RiemannReflects | examples/mhd_orszag_tang/src/mhd2d.cpp:217-261 | exchanging and reflecting the two sides reverses the solver's flux, except exactly when HLL finds both outer waves at rest and the two fluxes differ; for any function in place of the root |
| FluxLaws.ReflectionFailsIffInert | examples/mhd_orszag_tang/src/mhd2d.cpp:217-261 | with a true root the exception is exactly HLL between two cells at rest along the normal, without pressure and field, whose psi differ |
| FluxLaws.PressureFloorReflects | examples/mhd_orszag_tang/src/mhd2d.cpp:217-261 | so with a positive pressure floor both solvers always reflect |
| FluxLaws.InertCellsDoNotReflect | examples/mhd_orszag_tang/src/mhd2d.cpp:246-253 | with a zero pressure floor, two admissible cells at rest that differ in psi alone do not |
| Reflection.RunReflectsX | examples/mhd_orszag_tang/src/mhd2d.cpp:585-645 | with a positive pressure floor and a true root, reflecting the grid across the x axis, columns reversed and normal components negated, commutes with any run |
| Reflection.RunReflectsY | examples/mhd_orszag_tang/src/mhd2d.cpp:585-645 | the same across the y axis |
| Reflection.FaceReflects | examples/mhd_orszag_tang/src/mhd2d.cpp:417-453 | a whole face, reconstruction included, seen in the mirror carries the reversed flux |
| Reflection.RiemannAlong | examples/mhd_orszag_tang/src/mhd2d.cpp:217-261 | across faces along the mirror both solvers reflect without any condition |
| RowSplit.BlocksAbut | examples/mhd_orszag_tang/src/mhd2d.cpp:39-42 | the ranks' row blocks lie end to end from 0 to ny |
| RowSplit.BlocksPartition | examples/mhd_orszag_tang/src/mhd2d.cpp:39-42 | every row belongs to exactly one rank, and block sizes differ by at most one |
| RankField.PhaseOneHolds | examples/mhd_orszag_tang/src/mhd2d.cpp:593-606 | right-hand side, update and floors give exactly the reference's rows when the rows within the stencil's reach are right: one row out for the first-order scheme, two for the second-order one |
| RankField.PhaseTwoHolds | examples/mhd_orszag_tang/src/mhd2d.cpp:627-643 | the same for the second stage; of the field itself only the rank's own rows matter |
| RankField.RhsCellsAgree | examples/mhd_orszag_tang/src/mhd2d.cpp:417-510 | the right-hand side of a rank's cell is the periodic grid's when the rows within reach are right |
| Cluster.RunRefines | examples/mhd_orszag_tang/src/mhd2d.cpp:585-645 | any number of ranks holds the reference grid after any run: with the first-order scheme every number the constructor accepts, with the second-order one if each rank owns two rows |
| Cluster.FirstOrderRunRefines | examples/mhd_orszag_tang/src/mhd2d.cpp:585-609 | in particular, first-order runs hold the reference grid on every number of ranks from one to ny |
| NarrowRanks.RunRightIffWide | examples/mhd_orszag_tang/src/mhd2d.cpp:34-42 | with a true root this is exact: for a given number of ranks every run is right if and only if each rank owns as many rows as the scheme reaches |
| NarrowRanks.NarrowRunDiffers | examples/mhd_orszag_tang/src/mhd2d.cpp:611-643 | with the second-order scheme and a rank of one row, a run from right halos leaves the reference in its first step, for both solvers and all parameters |
| NarrowRanks.StaleBelow | examples/mhd_orszag_tang/src/mhd2d.cpp:625-627 | the reason: the second stage then sees, two rows out, the neighbour's row from before the first stage |
| NarrowRanks.ExchangeKeepsHalos | examples/mhd_orszag_tang/src/mhd2d.cpp:272-375 | halos that are right stay right under the exchange, however narrow the ranks |
| RestLayers.RestRiemann | examples/mhd_orszag_tang/src/mhd2d.cpp:217-261 | between cells at rest at equal pressure, HLL and Rusanov both carry the pressure and a diffusive mass flux at the speed of sound of the lighter side |
| RestLayers.StageIsLayers | examples/mhd_orszag_tang/src/mhd2d.cpp:611-625 | in layers of two densities the first stage moves every row by three eighths of its second difference, and changes nothing else |
| RestLayers.RatesDiffer | examples/mhd_orszag_tang/src/mhd2d.cpp:428-443 | where a layer is a density minimum, a denser row two below it strictly lowers its rate of change in the second-order scheme |
| Cluster.DistributedEqualsSerial | examples/mhd_orszag_tang/src/mhd2d.cpp:585-645 | row j of rank r after a distributed run is row offset + j of the serial run, in every column; ghost rows too, as far out as ranks have rows |
| Cluster.AdvanceRefines | examples/mhd_orszag_tang/src/mhd2d.cpp:585-645 | one lockstep step of ranks with as many rows as the scheme reaches is one reference step, and leaves halos filled as far out as ranks have rows |
| Cluster.ExchangeHalos | examples/mhd_orszag_tang/src/mhd2d.cpp:272-375 | the exchange makes every rank's field the periodic extension of its block as far out as ranks have rows, corners included |
| Cluster.ReceivedExtends | examples/mhd_orszag_tang/src/mhd2d.cpp:289-360 | the same for one rank of a ring of two or more, where previous and next may be the same rank |
| Cluster.RingNeighbours | examples/mhd_orszag_tang/src/mhd2d.cpp:292-293 | the previous rank's rows end where this rank's start and the next rank's start where they end, around the ring |
| Cluster.LoneRankExtends | examples/mhd_orszag_tang/src/mhd2d.cpp:363-374 | wrapping a lone rank's own rows gives the periodic extension |
| Cluster.SerialFillIsPeriodic | examples/mhd_orszag_tang/src/mhd2d.cpp:272-375 | the serial fill gives every cell the interior cell at the wrapped index, leaves the interior alone, and a second fill changes nothing |
| Cluster.ExchangeRightIffWide | examples/mhd_orszag_tang/src/mhd2d.cpp:34-42 | for a given number of ranks the exchange is right on every input exactly when ny / size >= ng |
| Cluster.NarrowRankBreaksExchange | examples/mhd_orszag_tang/src/mhd2d.cpp:315-326 | with a narrower rank that the constructor accepts, stale ghost values are sent as interior rows |
| Reductions.TimeStepAgrees | examples/mhd_orszag_tang/src/mhd2d.cpp:549-583 | every rank computes the time step of the whole grid |
| Reductions.SelfTimedRunRefines | examples/mhd_orszag_tang/src/mhd2d.cpp:549-645 | a distributed run in which every step has the computed length holds the grid of the serial run that does the same, under the same condition on rows |
| Driver.Drive | examples/mhd_orszag_tang/src/main.cpp:583-641 | the main loop over the solver objects, with the clipping at tfinal, both loop tests and the failure on a non-positive step: what it writes and where it ends is what the whole grid's run writes and where that ends |
| Driver.OutputsAgree | examples/mhd_orszag_tang/src/main.cpp:583-641 | any number of ranks with as many rows as the scheme reaches writes the same list of step, time and diagnostics as one run on the whole grid |
| Driver.RankCountIrrelevant | examples/mhd_orszag_tang/src/main.cpp:583-641 | two runs of one problem on different numbers of ranks end at the same step and write the same list |
| Driver.TrajectoriesAgree | examples/mhd_orszag_tang/src/main.cpp:599-613 | step by step the ranks hold the grid, halos included, at the same times, take the same step lengths and report the same |
| Driver.TakeTurn | examples/mhd_orszag_tang/src/main.cpp:606-613 | one turn of the loop: all ranks advance by the step cut at tfinal |
| Reductions.DiagnosticsAgree | examples/mhd_orszag_tang/src/mhd2d.cpp:753-806 | each reduced sum and maximum of the diagnostics is that of the whole periodic grid, as soon as one ghost row on each side is right |
| Reductions.ReportAgrees | examples/mhd_orszag_tang/src/mhd2d.cpp:735-822 | the reported diagnostics are then those of the whole grid |
| DiagnosticLaws.UniformReport | examples/mhd_orszag_tang/src/mhd2d.cpp:808-821 | a uniform admissible fluid reports its densities of mass and energies times the area of the domain, its own pressure and flow speed, and no current or divergence |
| DiagnosticLaws.ReportedConservation | examples/mhd_orszag_tang/src/mhd2d.cpp:735-822 | over any run the reported mass and total energy never drop, and both stay exactly the same if and only if no floor fires in any step |
| DiagnosticLaws.CurlReportsNoDivergence | examples/mhd_orszag_tang/src/mhd2d.cpp:782-787 | a field that is the central-difference curl of any periodic potential is reported free of divergence |
| DiagnosticLaws.GradientReportsNoCurrent | examples/mhd_orszag_tang/src/mhd2d.cpp:775-780 | a field that is a central-difference gradient is reported free of current |
| DiagnosticLaws.LinearFieldExact | examples/mhd_orszag_tang/src/mhd2d.cpp:775-784 | on a linear field both difference quotients are exact |
| DiagnosticLaws.EnergyParts | examples/mhd_orszag_tang/src/mhd2d.cpp:763-772 | of an admissible cell, twice kinetic energy times density is the squared momentum, twice magnetic energy the squared field, and gamma - 1 times internal energy the pressure |
| DiagnosticLaws.ExtremesAndSquares | examples/mhd_orszag_tang/src/mhd2d.cpp:765-787 | the summed squares are those of the quantities the maxima are taken of, and the flow speed is the length of the velocity |
| DiagnosticLaws.ReportedRmsBounds | examples/mhd_orszag_tang/src/mhd2d.cpp:816-821 | each root mean square is at most its maximum, and the squared maximum at most the number of cells times the mean square |
| Reductions.RunReportAgrees | examples/mhd_orszag_tang/src/mhd2d.cpp:735-822 | after any run of ranks with as many rows as the scheme reaches, all ranks report the diagnostics of the reference run |
| Reductions.ReportedEnergyBudget | examples/mhd_orszag_tang/src/mhd2d.cpp:808-815 | after any distributed step, of any number of ranks from any state, the reported total energy is kinetic plus magnetic plus internal |
| Reductions.ClusterAdvanceAdmits | examples/mhd_orszag_tang/src/mhd2d.cpp:585-645 | every cell a rank owns is admissible after a step, however narrow the ranks |
| Reductions.EnergyBudget | examples/mhd_orszag_tang/src/mhd2d.cpp:767-771 | the same for the sums over the reference grid |
| Reductions.EnergySplits | examples/mhd_orszag_tang/src/mhd2d.cpp:763-771 | an admissible cell's stored energy is the sum of the three parts computed from its primitive variables |
| Reductions.MaxOverRanks | examples/mhd_orszag_tang/src/mhd2d.cpp:573-579 | the maximum over ranks of block maxima is the grid's maximum |
| Reductions.SumOverRanks | examples/mhd_orszag_tang/src/mhd2d.cpp:798-806 | the sum over ranks of block sums is the grid's sum |
| Layout.IdxInRange | examples/mhd_orszag_tang/src/mhd2d.cpp:81 | computed without a bound on int, the flat index of every entry lies inside the array |
| Layout.IdxInjective | examples/mhd_orszag_tang/src/mhd2d.cpp:81 | computed without a bound on int, no two entries share a flat index |
| Layout.IdxOnto | examples/mhd_orszag_tang/src/mhd2d.cpp:81 | every place of the array is the unbounded index of an entry |
| Layout.IdxFitsIff | examples/mhd_orszag_tang/src/mhd2d.cpp:55-81 | the index fits the int it is computed in, for every entry, exactly when the array has at most 2^31 places |
| Mhd2d.RankIndicesFitIff | examples/mhd_orszag_tang/src/mhd2d.cpp:55-81 | all indices of a rank, into fields, face fluxes and messages, fit exactly when its field has at most 2^31 entries |
| Mhd2d.LargeGridOverflows | examples/mhd_orszag_tang/src/mhd2d.cpp:49-81 | on one rank a grid of 16384 by 16384 has the index 2417098895, which does not fit; on two ranks all indices fit |
| Layout.VarUpdated | examples/mhd_orszag_tang/src/mhd2d.cpp:83-88 | writing one place changes the one entry that lives there |
| Layout.Put | examples/mhd_orszag_tang/src/mhd2d.cpp:83-88 | the same for the write in place |
| Layout.LoadState | examples/mhd_orszag_tang/src/mhd2d.cpp:90-98 | reads the nine entries of one cell |
| Layout.StoreState | examples/mhd_orszag_tang/src/mhd2d.cpp:100-106 | sets one cell and leaves all others alone |
| Mhd2d.MHD2D.constructor | examples/mhd_orszag_tang/src/mhd2d.cpp:29-60 | a fresh rank owns its block of rows and four distinct arrays of the right size, filled with zeros |
| States.CellsTileDomain | examples/mhd_orszag_tang/src/mhd2d.cpp:52-53 | nx cells of width dx and ny of width dy fill the domain exactly |
| Mhd2d.MHD2D.Create | examples/mhd_orszag_tang/src/mhd2d.cpp:34-37 | construction is refused exactly when there are more ranks than rows |
| Mhd2d.MHD2D.FillColumns | examples/mhd_orszag_tang/src/mhd2d.cpp:276-287 | the in-place x fill makes both ghost margins of every row periodic |
| Mhd2d.MHD2D.FillRows | examples/mhd_orszag_tang/src/mhd2d.cpp:363-374 | the in-place y fill makes the ghost rows periodic, though it reads the array it writes |
| Mhd2d.MHD2D.FillBoundaries | examples/mhd_orszag_tang/src/mhd2d.cpp:272-375 | both together, on a lone rank; with Cluster.SerialFillIsPeriodic this is periodic extension |
| Mhd2d.MHD2D.PackRows | examples/mhd_orszag_tang/src/mhd2d.cpp:302-326 | the send buffer, filled by a running counter, holds exactly the chosen rows |
| Mhd2d.MHD2D.UnpackRows | examples/mhd_orszag_tang/src/mhd2d.cpp:334-358 | the received buffer replaces exactly the chosen rows |
| Mhd2d.MHD2D.PackHalos | examples/mhd_orszag_tang/src/mhd2d.cpp:276-326 | fills the columns and packs the bottom and top rows of the result |
| Mhd2d.MHD2D.UnpackHalos | examples/mhd_orszag_tang/src/mhd2d.cpp:334-358 | the two received buffers become the ghost rows and the interior is kept |
| Mhd2d.MHD2D.EnforceFloors | examples/mhd_orszag_tang/src/mhd2d.cpp:377-390 | projects every interior cell in place and no ghost cell |
| Mhd2d.MHD2D.ComputeFluxX | examples/mhd_orszag_tang/src/mhd2d.cpp:417-453 | the flat x flux array holds the flux of every x face |
| Mhd2d.MHD2D.ComputeFluxY | examples/mhd_orszag_tang/src/mhd2d.cpp:455-492 | the flat y flux array holds the flux of every y face |
| Mhd2d.MHD2D.FluxThroughX | examples/mhd_orszag_tang/src/mhd2d.cpp:422-447 | one x face: reconstruct, regularize, solve |
| Mhd2d.MHD2D.FluxThroughY | examples/mhd_orszag_tang/src/mhd2d.cpp:457-486 | one y face |
| Mhd2d.MHD2D.ComputeRhs | examples/mhd_orszag_tang/src/mhd2d.cpp:392-511 | the right-hand side array holds the divergence of every interior cell and zero in the ghosts |
| Mhd2d.MHD2D.AddScaled | examples/mhd_orszag_tang/src/mhd2d.cpp:614-623 | adds dt times the right-hand side to the interior only |
| Mhd2d.MHD2D.AverageStages | examples/mhd_orszag_tang/src/mhd2d.cpp:629-641 | the second-stage average over the interior, in place |
| Mhd2d.MHD2D.UpdateFirstOrder | examples/mhd_orszag_tang/src/mhd2d.cpp:593-606 | the local part of a first-order step |
| Mhd2d.MHD2D.PredictStage | examples/mhd_orszag_tang/src/mhd2d.cpp:611-625 | the first stage goes to the stage array; the field itself is kept |
| Mhd2d.MHD2D.CorrectFromStage | examples/mhd_orszag_tang/src/mhd2d.cpp:627-643 | the second stage |
| Mhd2d.MHD2D.Advance | examples/mhd_orszag_tang/src/mhd2d.cpp:585-645 | a lone rank's in-place step leaves the periodic extension of one reference step of the interior it started from |
| Mhd2d.MHD2D.AdvanceIsReference | examples/mhd_orszag_tang/src/mhd2d.cpp:585-645 | one serial step from any haloed field is the periodic extension of a reference step |
| Mhd2d.MHD2D.LargestSpeed | examples/mhd_orszag_tang/src/mhd2d.cpp:556-571 | the loop finds the largest signal speed of the rank's cells, at least the floor and glm_ch |
| Mhd2d.MHD2D.ComputeTimeStep | examples/mhd_orszag_tang/src/mhd2d.cpp:549-583 | a lone rank's time step |
| Mhd2d.MHD2D.DiagnoseCell | examples/mhd_orszag_tang/src/mhd2d.cpp:758-787 | one cell adds its summand to all eight sums and its candidate to all three maxima |
| Mhd2d.MHD2D.DiagnoseRow | examples/mhd_orszag_tang/src/mhd2d.cpp:756-788 | one row of the accumulation |
| Mhd2d.MHD2D.LocalDiagnostics | examples/mhd_orszag_tang/src/mhd2d.cpp:753-793 | the accumulated values are the sums and maxima over the rank's block |
| Mhd2d.MHD2D.ComputeDiagnostics | examples/mhd_orszag_tang/src/mhd2d.cpp:735-822 | a lone rank's report |
| World.World.Launch | examples/mhd_orszag_tang/src/mhd2d.cpp:29-60 | for any number of ranks the constructor accepts, all are valid, own their blocks and share no array |
| World.World.PackAll | examples/mhd_orszag_tang/src/mhd2d.cpp:276-326 | every rank's buffers hold its edge rows, columns filled |
| World.World.UnpackAll | examples/mhd_orszag_tang/src/mhd2d.cpp:328-358 | each rank receives the previous rank's top rows and the next rank's bottom rows |
| World.World.Exchange | examples/mhd_orszag_tang/src/mhd2d.cpp:272-375 | the in-place fill of all ranks, by messages or by a lone rank's wrap, is the exchange of the cluster |
| World.World.UpdateAllFirstOrder | examples/mhd_orszag_tang/src/mhd2d.cpp:593-606 | the local part of a first-order step on every rank |
| World.World.PredictAllStages | examples/mhd_orszag_tang/src/mhd2d.cpp:611-625 | the first stage on every rank; no field changes |
| World.World.CorrectAllFromStages | examples/mhd_orszag_tang/src/mhd2d.cpp:627-643 | the second stage on every rank |
| World.World.Advance | examples/mhd_orszag_tang/src/mhd2d.cpp:585-645 | in place and with messages, one step of all ranks is one cluster step |
| World.World.Run | examples/mhd_orszag_tang/src/main.cpp:599-613 | after any run the objects' arrays hold the reference grid whenever they held it before, for any number of ranks with the first-order scheme and for ranks of two rows with the second-order one |
| World.World.ComputeTimeStep | examples/mhd_orszag_tang/src/mhd2d.cpp:549-583 | the global maximum gives every rank the same step |
| World.World.ComputeDiagnostics | examples/mhd_orszag_tang/src/mhd2d.cpp:735-822 | the report made from the per-rank accumulators and the two reductions |
| BlockSelection.BlockDetectionExact | source/h5vol/H5VolUtil.c:94-131 | the answer is nonzero exactly for full boxes, if and only if neither 64-bit overflow of the box volume lands on the point count nor truncation to int turns a full block's count into zero |
| BlockSelection.BlockDetectionRight | source/h5vol/H5VolUtil.c:94-131 | so it is right for fewer than 2^31 points in a box of fewer than 2^64 cells, and returns the count |
| BlockSelection.OverflowFoolsDetection | source/h5vol/H5VolUtil.c:117-128 | two corner points of a 2 by 2^63+1 box are reported as a block |
| BlockSelection.TruncationHidesBlock | source/h5vol/H5VolUtil.c:128-129 | a full line of 2^32 points is reported as no block |
| BlockSelection.FullIffVolume | source/h5vol/H5VolUtil.c:94-131 | a selection is its whole bounding box exactly when it has as many points as the product of the counts |
| BlockSelection.BoxSize | source/h5vol/H5VolUtil.c:117-125 | in any number of dimensions a box has as many points as the product of its side lengths |
| BlockSelection.BoxMembers | source/h5vol/H5VolUtil.c:115-125 | the box built dimension by dimension is the set of points between the bounds |
| BlockSelection.WrappedIsModulo | source/h5vol/H5VolUtil.c:117-125 | the running 64-bit product is the true product modulo 2^64 |
| BlockSelection.ToIntIs | source/h5vol/H5VolUtil.c:128-129 | the returned int is the one 32-bit value congruent to the count |
| BlockSelection.GetBlockInfo | source/h5vol/H5VolUtil.c:94-131 | fills start and count from the bounds, leaves them alone for an empty selection, and returns the comparison's answer |
| TimeLoop.RunLoop | examples/mhd_orszag_tang/src/main.cpp:583-641 | for any step lengths the loop ends, at the first step where it must, with t <= tfinal and step <= max_steps, fails exactly at a non-positive step, and its writes are exactly the initial state if asked for and the due steps |
| TimeLoop.CheckDump | examples/mhd_orszag_tang/src/main.cpp:617-625 | the flag is raised exactly when some multiple of the cadence was passed in this step, and the next dump becomes the least multiple above the time plus slack |
| TimeLoop.SkipDumps | examples/mhd_orszag_tang/src/main.cpp:621-624 | the inner loop ends at the least multiple of the cadence above its bound |
| TimeLoop.NextDecides | examples/mhd_orszag_tang/src/main.cpp:618 | comparing with the stored next dump decides whether any multiple was passed |
| TimeLoop.WritesIncrease | examples/mhd_orszag_tang/src/main.cpp:586-636 | writes carry strictly increasing steps and the time of each |
| TimeLoop.WrittenIffDue | examples/mhd_orszag_tang/src/main.cpp:615-636 | a step taken is written exactly when it is due |
| TimeLoop.StepCadence | examples/mhd_orszag_tang/src/main.cpp:615-616 | the step cadence marks its positive multiples and no other steps |
| TimeLoop.FinalStateWritten | examples/mhd_orszag_tang/src/main.cpp:627-636 | reaching tfinal means the last write is the final state |
| TimeLoop.NoDumpMissed | examples/mhd_orszag_tang/src/main.cpp:617-636 | every multiple of the cadence passed by the run was passed in one step, which was written |
| Decomposition.Decomp1D | examples/basics/globalArray1D/decomp.c:50-65 | computes the same split as the solver's rows, inside the global array |
| Decomposition.GatherDecomp1D | examples/basics/globalArray1D/decomp.c:28-48 | the loops compute the total and the prefix sum of the gathered sizes, modulo 2^64 |
| Decomposition.GatherRecovers | examples/basics/globalArray1D/decomp.c:28-65 | gathering the block sizes gives back the global size and every offset |
| Decomposition.SkeletonArgs.DecomposeArray | examples/hello/skeleton/SkeletonArgs.cpp:98-124 | the fields become the rank's tile of both axes, the last tile taking the rest |
| Decomposition.TilesPartition | examples/hello/skeleton/SkeletonArgs.cpp:105-119 | along one axis every index lies in exactly one tile |
| Decomposition.RectanglesTile | examples/hello/skeleton/SkeletonArgs.cpp:98-120 | the rectangles of a full process grid cover every cell of the array they divide exactly once |
| Decomposition.ReadOnceIff | examples/hello/skeleton/SkeletonArgs.cpp:86-120 | the array the caller passes is read, every cell by one rank, if and only if both sizes fit 32 bits and the process count is the product without wrap-around |
| Decomposition.WideArrayPartlyRead | examples/hello/skeleton/SkeletonArgs.cpp:98-120 | of an array of 2^32 + 5 columns all ranks together read the first five |
| Decomposition.WrappedCountAccepted | examples/hello/skeleton/SkeletonArgs.cpp:86-89 | a process grid of 2147483649 by 2 passes the check for two processes, which then leave cells unread |
| MatlabOrder.SwapOrder | bindings/Matlab/adiosreadc.c:466-475 | the in-place loop swaps the two halves, entries of the first going through an int |
| MatlabOrder.ThroughIntKeeps | bindings/Matlab/adiosreadc.c:468-473 | the trip through an int keeps exactly the values that fit, and any value modulo 2^32 |
| MatlabOrder.SwappedIsReversed | bindings/Matlab/adiosreadc.c:466-475 | the result is the reversal exactly when the first half fits an int |
| MatlabOrder.SwapInvolution | bindings/Matlab/adiosreadc.c:466-475 | twice is the identity exactly when every entry but the middle one fits |
| MatlabOrder.FlipPreservesAddress | bindings/Matlab/adiosreadc.c:172-175 | for any rank, reversing dimensions and index turns the column-major address into the row-major one |
| MatlabOrder.SelectionInRangeIffValid | bindings/Matlab/adiosreadc.c:422-434 | exactly the valid 1-based or negative selections become ranges inside the dimension; none wraps around into it |
| MatlabOrder.RecalcOffsets | bindings/Matlab/adiosreadc.c:415-443 | every requested dimension is recomputed and missing ones are read whole |
| MatlabOrder.RecalcSteps | bindings/Matlab/adiosreadc.c:445-460 | steps are selected by the rule for dimensions: exactly the valid requests land in the step range |
| MatlabOrder.SelectForRead | bindings/Matlab/adiosreadc.c:161-221 | the library is asked for exactly the requested selection if and only if the request gets through; then the Matlab array's shape, steps included, is that of the selection reversed |
| MatlabOrder.DeliveredIffGetsThrough | bindings/Matlab/adiosreadc.c:172-221 | for every request: the selection survives both swaps if and only if, on the first half of Matlab's dimensions, start and count fit an int and, on the second half, the dimension fits or the selection is counted from the front |
| MatlabOrder.DeliveredInRange | bindings/Matlab/adiosreadc.c:172-221 | a valid request that gets through selects inside every dimension of the stored array |
| MatlabOrder.SmallDimensionsGetThrough | bindings/Matlab/adiosreadc.c:172-221 | valid requests on dimensions below 2^31 get through |
| MatlabOrder.LargeDimensionCorrupts | bindings/Matlab/adiosreadc.c:466-475 | a row-major shape 2^31 by 10, read whole, is asked for with 2^64 - 2^31 rows |
| StreamSteps.RunIsSafe | python/adios2/stream.py:167-190 | over every sequence of calls successful begins and ends alternate, and index >= 0 with status OK means a step is open |
| StreamSteps.RunKeepsInv | python/adios2/stream.py:167-190 | the same from any state that satisfies it |
| StreamSteps.DoKeepsInv | python/adios2/stream.py:869-896 | each single call keeps it |
| StreamSteps.Stream.DoNext | python/adios2/stream.py:167-190 | the method's early exits amount to the transition function, and only an open step is ended |
| StreamSteps.StepsAcceptedIff | python/adios2/stream.py:938-974 | after any run of calls, a loop may start exactly: in the write modes when a number is given, in read mode as long as no loop has taken a turn, with random access never |
| StreamSteps.Stream.DoBeginStep | python/adios2/stream.py:869-885 | answers OK exactly when this call opened a step; asks the engine exactly when none is open; keeps begins and ends alternating and a running loop's invariant |
| StreamSteps.Stream.RunLoop | python/adios2/stream.py:167-190 | from every state in which steps is accepted: an exhausted loop makes one begin/end pair for each begin that succeeds before the first that does not, at most n, and leaves no step open; where a step was left open it takes no turn, asks the engine nothing and leaves that step open |
| StreamSteps.TurnsOfLoop | python/adios2/stream.py:167-190 | one turn of the loop, from any position |
| StreamSteps.SuccessesAnswer | python/adios2/stream.py:167-190 | the number of pairs is where the engine's answers first differ from OK |
| StreamSteps.AllSucceed | python/adios2/stream.py:938-974 | an n-step loop whose begins all succeed makes n pairs |
| StatsColumns.ProcessFile | examples/mhd_orszag_tang/scripts/adios_stats.py:91-179 | every column has one entry per step, entry k being step k's statistic or a gap, and the columns are exactly the names ever written |
| StatsColumns.ReadStep | examples/mhd_orszag_tang/scripts/adios_stats.py:106-140 | a step's row holds exactly the statistics of its readable, non-empty, numeric variables |
| StatsColumns.Backfill | examples/mhd_orszag_tang/scripts/adios_stats.py:142-145 | new names start with gaps for all earlier steps; existing columns are kept |
| StatsColumns.AppendRow | examples/mhd_orszag_tang/scripts/adios_stats.py:147-149 | every column gets this step's value or a gap |
| StatsColumns.AgreeGrows | examples/mhd_orszag_tang/scripts/adios_stats.py:142-149 | backfill and append together keep columns and rows in agreement |
| StatsColumns.OutNameInjective | examples/mhd_orszag_tang/scripts/adios_stats.py:137-140 | distinct (variable, statistic) pairs never share an output name, whatever the variables are called |
| StatsColumns.StatNamesHaveNoUnderscore | examples/mhd_orszag_tang/scripts/adios_stats.py:22 | no statistic name contains an underscore, which is what the previous row needs |
| StatsColumns.StatNamesDistinct | examples/mhd_orszag_tang/scripts/adios_stats.py:22 | the six statistic names differ |
| StatsColumns.StatValuesInOrder | examples/mhd_orszag_tang/scripts/adios_stats.py:136-139 | each statistic's name selects its own value |
| StatsColumns.RowGrows | examples/mhd_orszag_tang/scripts/adios_stats.py:136-140 | adding one statistic overwrites no other |
| StatsColumns.RowUnique | examples/mhd_orszag_tang/scripts/adios_stats.py:106-140 | the step's variables determine its row |

## Left out

- Floating-point rounding, NaN and infinity: arithmetic is exact, so the branches taken when `isfinite` fails, and effects such as a mirror image differing in the last bit, are not modelled.
- Message passing itself: sends, receives and reductions are lockstep operations on all ranks; blocking, ordering and failures are not modelled.
- `initialize_orszag_tang`: initial data are arbitrary, which includes the vortex the source sets up.
- `extract_output`, `parse_solver_name` and the other name tables: per-cell copies and lookups.
- `adios_writer.cpp`, argument parsing, directory creation, parameter files and printing in `main.cpp`.
- The order of the additions in global sums, which is free over exact reals.
- Mhd2d.MHD2D.FillRows: requires at least `ng` rows, which every lone rank has because `ng <= ny`; grids smaller than the ghost width are not modelled (the driver insists on `nx, ny > 4`).
- Cluster.RunRefines: needs two rows per rank with the second-order scheme; below that `NarrowRanks.RunRightIffWide` shows that the property is false.
- Positivity.DensityLossBound: for the first-order scheme only; the source promises no such bound for the two-stage scheme.
- BlockSelection.GetBlockInfo: the point count and the bounds HDF5 reports are inputs, and the branch taken when an allocation fails is not modelled.
- TimeLoop.RunLoop: the step lengths are an arbitrary function of the step number; `Driver.Drive` joins the loop to the solver.
- Driver.Drive: of each write, the step, the time and the scalar diagnostics; the output fields of `extract_output` and log lines are left out.
- StreamSteps.RunIsSafe: loop bodies that call `end_step` themselves, engine calls that raise, and timeouts are not modelled.
- StatsColumns.ProcessFile: the numpy reductions are inputs, a gap stands for NaN, and writing the output file is left out.
- MatlabOrder.SelectForRead: type dispatch, strings, memory allocation by Matlab and the limit of 16 dimensions are left out.
- Decomposition.SkeletonArgs.DecomposeArray: requires `rank < npx * npy`, which the check in the constructor of the same class guarantees, wrap-around or not.
- The rest of ADIOS2: engines, serializers, aggregators, operators, plugins and the other bindings.
