/** Global reductions: the time step and the scalar diagnostics, computed per rank and combined,
    agree with the same quantities of the whole periodic grid. */
module Reductions {
  import opened States
  import opened Physics
  import opened PeriodicGrid
  import opened RankField
  import opened RowSplit
  import opened Sums
  import opened Cluster
  import opened Positivity

  // ----- Combining per-rank values -----

  /** The MPI_MAX reduction of one value per rank. */
  function ReduceMax(size: nat, f: int -> real): real
    requires 0 < size
  {
    if size == 1 then f(0) else Max(ReduceMax(size - 1, f), f(size - 1))
  }

  lemma ReduceFirst(f: int -> real)
    ensures ReduceMax(1, f) == f(0)
  {
  }

  lemma ReduceNext(size: nat, f: int -> real)
    requires 0 < size
    ensures ReduceMax(size + 1, f) == Max(ReduceMax(size, f), f(size))
  {
  }

  lemma {:induction false} ReduceMaxIs(size: nat, f: int -> real)
    requires 0 < size
    ensures forall r :: 0 <= r < size ==> f(r) <= ReduceMax(size, f)
    ensures exists r :: 0 <= r < size && f(r) == ReduceMax(size, f)
  {
    if size == 1 {
      assert f(0) == ReduceMax(size, f);
    } else {
      ReduceMaxIs(size - 1, f);
      var r :| 0 <= r < size - 1 && f(r) == ReduceMax(size - 1, f);
      assert f(if f(r) < f(size - 1) then size - 1 else r) == ReduceMax(size, f);
    }
  }

  /** Values of rank r's block are the grid's values shifted by its offset. */
  ghost predicate BlockValues(p: Params, size: int, r: int, local: (int, int) -> real, e: (int, int) -> real)
    requires 0 < size
  {
    forall i, j :: 0 <= i < p.nx && 0 <= j < Rows(p, size, r) ==> local(i, j) == e(i, Offset(p, size, r) + j)
  }

  /** `f(r)` is the largest value of rank r's block. */
  ghost predicate BlockMaxima(p: Params, size: int, locals: int -> ((int, int) -> real), base: real, f: int -> real)
    requires 0 < size <= p.ny
  {
    forall r :: 0 <= r < size ==> BlockMaximum(p, size, r, locals(r), base, f(r))
  }

  ghost predicate BlockMaximum(p: Params, size: int, r: int, local: (int, int) -> real, base: real, m: real)
    requires 0 < size <= p.ny && 0 <= r < size
  {
    0 <= Rows(p, size, r) && m == GridLargest(p.nx, Rows(p, size, r), local, base)
  }

  lemma MaxCoversCell(p: Params, size: int, locals: int -> ((int, int) -> real), e: (int, int) -> real, base: real,
                      f: int -> real, i: int, j: int)
    requires 0 < size <= p.ny && BlockMaxima(p, size, locals, base, f)
    requires forall r :: 0 <= r < size ==> BlockValues(p, size, r, locals(r), e)
    requires 0 <= i < p.nx && 0 <= j < p.ny
    ensures exists r :: 0 <= r < size && e(i, j) <= f(r)
  {
    hide BlockStart;
    hide BlockSize;
    hide GridLargest;
    var r := BlocksPartition(p.ny, size, j);
    assert BlockValues(p, size, r, locals(r), e);
    assert BlockMaximum(p, size, r, locals(r), base, f(r));
    GridLargestIs(p.nx, Rows(p, size, r), locals(r), base);
    assert locals(r)(i, j - Offset(p, size, r)) == e(i, j);
  }

  lemma MaxIsAttained(p: Params, size: int, locals: int -> ((int, int) -> real), e: (int, int) -> real, base: real,
                      f: int -> real, r: int)
    requires 0 < size <= p.ny && BlockMaxima(p, size, locals, base, f) && 0 <= r < size
    requires BlockValues(p, size, r, locals(r), e)
    ensures base <= f(r)
    ensures f(r) == base || exists i, j :: 0 <= i < p.nx && 0 <= j < p.ny && e(i, j) == f(r)
  {
    hide BlockStart;
    hide BlockSize;
    hide GridLargest;
    assert BlockMaximum(p, size, r, locals(r), base, f(r));
    GridLargestIs(p.nx, Rows(p, size, r), locals(r), base);
    if f(r) != base {
      var i, j :| 0 <= i < p.nx && 0 <= j < Rows(p, size, r) && locals(r)(i, j) == f(r);
      BlockFits(p, size, r);
      assert e(i, Offset(p, size, r) + j) == f(r);
    }
  }

  /** The reduction of the blocks' maxima is the grid's maximum. */
  lemma MaxOverRanks(p: Params, size: int, locals: int -> ((int, int) -> real), e: (int, int) -> real, base: real,
                     f: int -> real)
    requires 0 < size <= p.ny && BlockMaxima(p, size, locals, base, f)
    requires forall r :: 0 <= r < size ==> BlockValues(p, size, r, locals(r), e)
    ensures ReduceMax(size, f) == GridLargest(p.nx, p.ny, e, base)
  {
    hide BlockMaxima;
    hide BlockValues;
    hide GridLargest;
    hide ReduceMax;
    var m := ReduceMax(size, f);
    ReduceMaxIs(size, f);
    forall i, j | 0 <= i < p.nx && 0 <= j < p.ny ensures e(i, j) <= m {
      MaxCoversCell(p, size, locals, e, base, f, i, j);
    }
    var r :| 0 <= r < size && f(r) == m;
    MaxIsAttained(p, size, locals, e, base, f, r);
    GridLargestIs(p.nx, p.ny, e, base);
    LargestUnique(m, GridLargest(p.nx, p.ny, e, base), p.nx, p.ny, e, base);
  }

  /** `f(r)` is the sum over rank r's block. */
  ghost predicate BlockSums(p: Params, size: int, locals: int -> ((int, int) -> real), f: int -> real)
    requires 0 < size <= p.ny
  {
    forall r :: 0 <= r < size ==> BlockSum(p, size, r, locals(r), f(r))
  }

  ghost predicate BlockSum(p: Params, size: int, r: int, local: (int, int) -> real, m: real)
    requires 0 < size <= p.ny && 0 <= r < size
  {
    0 <= Rows(p, size, r) && m == GridSum(p.nx, Rows(p, size, r), local)
  }

  lemma {:induction false} SumOverFirst(p: Params, size: int, k: nat, locals: int -> ((int, int) -> real),
                                        e: (int, int) -> real, f: int -> real)
    requires 0 < size <= p.ny && k <= size && BlockSums(p, size, locals, f)
    requires forall r :: 0 <= r < size ==> BlockValues(p, size, r, locals(r), e)
    ensures 0 <= Offset(p, size, k) && Sum(k, f) == GridSum(p.nx, Offset(p, size, k), e)
    decreases k
  {
    hide BlockStart;
    hide BlockSize;
    if k == 0 {
      BlocksAbut(p.ny, size, 0);
    } else {
      var r := k - 1;
      SumOverFirst(p, size, r, locals, e, f);
      hide GridSum;
      BlockFits(p, size, r);
      assert BlockValues(p, size, r, locals(r), e);
      assert BlockSum(p, size, r, locals(r), f(r));
      GridSumSplit(p.nx, Offset(p, size, r), Rows(p, size, r), e, locals(r));
    }
  }

  /** The reduction of the blocks' sums is the grid's sum. */
  lemma SumOverRanks(p: Params, size: int, locals: int -> ((int, int) -> real), e: (int, int) -> real, f: int -> real)
    requires 0 < size <= p.ny && BlockSums(p, size, locals, f)
    requires forall r :: 0 <= r < size ==> BlockValues(p, size, r, locals(r), e)
    ensures Sum(size, f) == GridSum(p.nx, p.ny, e)
  {
    SumOverFirst(p, size, size, locals, e, f);
    BlocksAbut(p.ny, size, 0);
    hide BlockStart;
    hide GridSum;
    hide Sum;
  }

  // ----- The time step -----

  /** The wave speeds of a rank's interior cells. */
  function LocalSpeed(p: Params, rows: int, f: Field): (int, int) -> real
    requires IsField(p, rows, f)
  {
    (i, j) => if 0 <= i < p.nx && 0 <= j < rows then CellSpeed(p, f[p.ng + j][p.ng + i]) else 0.0
  }

  lemma LocalSpeedAt(p: Params, rows: int, f: Field, i: int, j: int)
    requires IsField(p, rows, f) && InCells(p, rows, i, j)
    ensures LocalSpeed(p, rows, f)(i - p.ng, j - p.ng) == CellSpeed(p, f[j][i])
  {
    hide CellSpeed;
  }

  function LocalFastest(p: Params, rows: int, f: Field): real
    requires IsField(p, rows, f)
  {
    Max(GridLargest(p.nx, rows, LocalSpeed(p, rows, f), SPEED_FLOOR), p.glmCh)
  }

  function RankFastest(p: Params, fs: seq<Field>): int -> real
    requires IsCluster(p, fs)
  {
    r => if 0 <= r < |fs| then LocalFastest(p, Rows(p, |fs|, r), fs[r]) else 0.0
  }

  /** `compute_time_step` as every rank computes it. */
  function ClusterTimeStep(p: Params, fs: seq<Field>): real
    requires IsCluster(p, fs)
  {
    if p.fixedDt > 0.0 then p.fixedDt else StepFor(p, ReduceMax(|fs|, RankFastest(p, fs)))
  }

  lemma {:induction false} ReduceMaxWith(size: nat, f: int -> real, g: int -> real, c: real)
    requires 0 < size && forall r :: 0 <= r < size ==> g(r) == Max(f(r), c)
    ensures ReduceMax(size, g) == Max(ReduceMax(size, f), c)
  {
    if size != 1 { ReduceMaxWith(size - 1, f, g, c); }
  }

  /** All ranks agree on the serial time step. */
  lemma TimeStepAgrees(p: Params, fs: seq<Field>, g: Grid)
    requires Owns(p, fs, g)
    ensures ClusterTimeStep(p, fs) == TimeStep(p, g)
  {
    hide BlockStart;
    hide BlockSize;
    hide CellSpeed;
    hide GridLargest;
    var n, e := |fs|, Speed(p, g);
    forall r | 0 <= r < n
      ensures IsField(p, Rows(p, n, r), fs[r]) && BlockValues(p, n, r, LocalSpeed(p, Rows(p, n, r), fs[r]), e)
    {
      assert OwnsBlock(p, n, r, fs[r], g);
      BlockFits(p, n, r);
      forall i, j | 0 <= i < p.nx && 0 <= j < Rows(p, n, r)
        ensures LocalSpeed(p, Rows(p, n, r), fs[r])(i, j) == e(i, Offset(p, n, r) + j)
      {
        assert HoldsCell(p, Rows(p, n, r), Offset(p, n, r), fs[r], g, p.ng + i, p.ng + j);
      }
    }
    var locals := r => if 0 <= r < n then LocalSpeed(p, Rows(p, n, r), fs[r]) else e;
    var f := r => if 0 <= r < n then GridLargest(p.nx, Rows(p, n, r), locals(r), SPEED_FLOOR) else 0.0;
    assert BlockMaxima(p, n, locals, SPEED_FLOOR, f);
    MaxOverRanks(p, n, locals, e, SPEED_FLOOR, f);
    ReduceMaxWith(n, f, RankFastest(p, fs), p.glmCh);
  }

  /** The reference run and the distributed run, each choosing its own steps. */
  function SelfTimedRun(p: Params, steps: nat, g: Grid): (r: Grid)
    requires Shape(g, p.nx, p.ny)
    ensures Shape(r, p.nx, p.ny)
  {
    if steps == 0 then g else SelfTimedRun(p, steps - 1, Advance(p, TimeStep(p, g), g))
  }

  function SelfTimedClusterRun(p: Params, steps: nat, fs: seq<Field>): (r: seq<Field>)
    requires IsCluster(p, fs)
    ensures IsCluster(p, r) && |r| == |fs|
  {
    if steps == 0 then fs else SelfTimedClusterRun(p, steps - 1, ClusterAdvance(p, ClusterTimeStep(p, fs), fs))
  }

  lemma {:induction false} SelfTimedRunRefines(p: Params, steps: nat, fs: seq<Field>, g: Grid)
    requires Owns(p, fs, g) && WideForRun(p, |fs|)
    ensures Owns(p, SelfTimedClusterRun(p, steps, fs), SelfTimedRun(p, steps, g))
  {
    hide ClusterAdvance;
    hide Advance;
    hide TimeStep;
    hide ClusterTimeStep;
    hide HaloedBlock;
    hide OwnsBlock;
    if steps != 0 {
      TimeStepAgrees(p, fs, g);
      var dt := TimeStep(p, g);
      AdvanceRefines(p, dt, fs, g, 0);
      HaloedOwns(p, ClusterAdvance(p, dt, fs), Advance(p, dt, g), 0);
      SelfTimedRunRefines(p, steps - 1, ClusterAdvance(p, dt, fs), Advance(p, dt, g));
    }
  }

  // ----- Diagnostics -----

  datatype Quantity = Density | Kinetic | Magnetic | Internal | EnergyTotal | Pressure
                    | CurrentSquared | DivergenceSquared

  datatype Extreme = FlowSpeed | Current | FieldDivergence

  function CurrentZ(p: Params, w: State, e: State, s: State, n: State): real {
    Quotient(e.bY - w.bY, 2.0 * Dx(p)) - Quotient(n.bX - s.bX, 2.0 * Dy(p))
  }

  function DivB(p: Params, w: State, e: State, s: State, n: State): real {
    Quotient(e.bX - w.bX, 2.0 * Dx(p)) + Quotient(n.bY - s.bY, 2.0 * Dy(p))
  }

  /** What one cell, with its four neighbours, adds to a sum. */
  function Summand(p: Params, q: Quantity, c: State, w: State, e: State, s: State, n: State): real {
    var prim := ToPrimitive(p, c);
    match q
    case Density => prim.rho
    case Kinetic => 0.5 * prim.rho * SumSquares(prim.vX, prim.vY, prim.vZ)
    case Magnetic => 0.5 * SumSquares(prim.bX, prim.bY, prim.bZ)
    case Internal => prim.p / (p.gamma - 1.0)
    case EnergyTotal => c.e
    case Pressure => prim.p
    case CurrentSquared => Times(CurrentZ(p, w, e, s, n), CurrentZ(p, w, e, s, n))
    case DivergenceSquared => Times(DivB(p, w, e, s, n), DivB(p, w, e, s, n))
  }

  function Candidate(p: Params, q: Extreme, c: State, w: State, e: State, s: State, n: State): real {
    match q
    case FlowSpeed => var prim := ToPrimitive(p, c); p.sqrt(SumSquares(prim.vX, prim.vY, prim.vZ))
    case Current => Abs(CurrentZ(p, w, e, s, n))
    case FieldDivergence => Abs(DivB(p, w, e, s, n))
  }

  // A cell of a rank's field, and of the grid, with its neighbours.

  function FieldCellSummand(p: Params, rows: int, f: Field, q: Quantity, i: int, j: int): real
    requires IsField(p, rows, f) && InCells(p, rows, i, j)
  {
    Summand(p, q, f[j][i], f[j][i - 1], f[j][i + 1], f[j - 1][i], f[j + 1][i])
  }

  function FieldCellCandidate(p: Params, rows: int, f: Field, q: Extreme, i: int, j: int): real
    requires IsField(p, rows, f) && InCells(p, rows, i, j)
  {
    Candidate(p, q, f[j][i], f[j][i - 1], f[j][i + 1], f[j - 1][i], f[j + 1][i])
  }

  function GridCellSummand(p: Params, g: Grid, q: Quantity, i: int, j: int): real
    requires Shape(g, p.nx, p.ny) && 0 <= i < p.nx && 0 <= j < p.ny
  {
    Summand(p, q, At(p, g, i, j), At(p, g, i - 1, j), At(p, g, i + 1, j), At(p, g, i, j - 1), At(p, g, i, j + 1))
  }

  function GridCellCandidate(p: Params, g: Grid, q: Extreme, i: int, j: int): real
    requires Shape(g, p.nx, p.ny) && 0 <= i < p.nx && 0 <= j < p.ny
  {
    Candidate(p, q, At(p, g, i, j), At(p, g, i - 1, j), At(p, g, i + 1, j), At(p, g, i, j - 1), At(p, g, i, j + 1))
  }

  function LocalSummand(p: Params, rows: int, f: Field, q: Quantity): (int, int) -> real
    requires IsField(p, rows, f)
  {
    (i, j) => if InCells(p, rows, p.ng + i, p.ng + j) then FieldCellSummand(p, rows, f, q, p.ng + i, p.ng + j) else 0.0
  }

  function LocalCandidate(p: Params, rows: int, f: Field, q: Extreme): (int, int) -> real
    requires IsField(p, rows, f)
  {
    (i, j) => if InCells(p, rows, p.ng + i, p.ng + j) then FieldCellCandidate(p, rows, f, q, p.ng + i, p.ng + j)
              else 0.0
  }

  function GridSummand(p: Params, g: Grid, q: Quantity): (int, int) -> real
    requires Shape(g, p.nx, p.ny)
  {
    (i, j) => if 0 <= i < p.nx && 0 <= j < p.ny then GridCellSummand(p, g, q, i, j) else 0.0
  }

  function GridCandidate(p: Params, g: Grid, q: Extreme): (int, int) -> real
    requires Shape(g, p.nx, p.ny)
  {
    (i, j) => if 0 <= i < p.nx && 0 <= j < p.ny then GridCellCandidate(p, g, q, i, j) else 0.0
  }

  function RankSum(p: Params, fs: seq<Field>, q: Quantity): int -> real
    requires IsCluster(p, fs)
  {
    r => if 0 <= r < |fs| then GridSum(p.nx, Rows(p, |fs|, r), LocalSummand(p, Rows(p, |fs|, r), fs[r], q)) else 0.0
  }

  function RankMax(p: Params, fs: seq<Field>, q: Extreme): int -> real
    requires IsCluster(p, fs)
  {
    r => if 0 <= r < |fs| then GridLargest(p.nx, Rows(p, |fs|, r), LocalCandidate(p, Rows(p, |fs|, r), fs[r], q), 0.0)
         else 0.0
  }

  lemma HaloedCell(p: Params, fs: seq<Field>, g: Grid, r: int, x: int, y: int)
    requires HaloedWithin(p, fs, g, 1) && 0 <= r < |fs| && Near(p, Rows(p, |fs|, r), 1, x, y)
    ensures 1 <= Rows(p, |fs|, r) && 0 <= Offset(p, |fs|, r) && Offset(p, |fs|, r) + Rows(p, |fs|, r) <= p.ny
    ensures fs[r][y][x] == At(p, g, x - p.ng, Offset(p, |fs|, r) + y - p.ng)
  {
    hide BlockStart;
    hide BlockSize;
    hide At;
    BlockFits(p, |fs|, r);
    assert HaloedBlock(p, |fs|, r, fs[r], g, 1);
    assert ExtendsCell(p, Rows(p, |fs|, r), Offset(p, |fs|, r), fs[r], g, x, y);
  }

  lemma CellDiagnostics(p: Params, fs: seq<Field>, g: Grid, r: int, q: Quantity, x: Extreme, i: int, j: int)
    requires HaloedWithin(p, fs, g, 1) && 0 <= r < |fs| && InCells(p, Rows(p, |fs|, r), i, j)
    ensures 0 <= Offset(p, |fs|, r) && Offset(p, |fs|, r) + Rows(p, |fs|, r) <= p.ny
    ensures FieldCellSummand(p, Rows(p, |fs|, r), fs[r], q, i, j)
         == GridCellSummand(p, g, q, i - p.ng, Offset(p, |fs|, r) + j - p.ng)
    ensures FieldCellCandidate(p, Rows(p, |fs|, r), fs[r], x, i, j)
         == GridCellCandidate(p, g, x, i - p.ng, Offset(p, |fs|, r) + j - p.ng)
  {
    hide BlockStart;
    hide BlockSize;
    hide Summand;
    hide Candidate;
    hide At;
    hide HaloedBlock;
    HaloedCell(p, fs, g, r, i, j);
    HaloedCell(p, fs, g, r, i - 1, j);
    HaloedCell(p, fs, g, r, i + 1, j);
    HaloedCell(p, fs, g, r, i, j - 1);
    HaloedCell(p, fs, g, r, i, j + 1);
  }

  lemma BlockDiagnostics(p: Params, fs: seq<Field>, g: Grid, r: int, q: Quantity, x: Extreme)
    requires HaloedWithin(p, fs, g, 1) && 0 <= r < |fs|
    ensures 1 <= Rows(p, |fs|, r)
    ensures BlockValues(p, |fs|, r, LocalSummand(p, Rows(p, |fs|, r), fs[r], q), GridSummand(p, g, q))
    ensures BlockValues(p, |fs|, r, LocalCandidate(p, Rows(p, |fs|, r), fs[r], x), GridCandidate(p, g, x))
  {
    hide BlockStart;
    hide BlockSize;
    hide FieldCellSummand;
    hide FieldCellCandidate;
    hide GridCellSummand;
    hide GridCellCandidate;
    hide HaloedBlock;
    BlockFits(p, |fs|, r);
    var local, e := LocalSummand(p, Rows(p, |fs|, r), fs[r], q), GridSummand(p, g, q);
    var local', e' := LocalCandidate(p, Rows(p, |fs|, r), fs[r], x), GridCandidate(p, g, x);
    forall i, j | 0 <= i < p.nx && 0 <= j < Rows(p, |fs|, r)
      ensures local(i, j) == e(i, Offset(p, |fs|, r) + j) && local'(i, j) == e'(i, Offset(p, |fs|, r) + j)
    {
      CellDiagnostics(p, fs, g, r, q, x, p.ng + i, p.ng + j);
    }
  }

  /** The reduced sums and maxima are those of the whole grid. */
  lemma DiagnosticsAgree(p: Params, fs: seq<Field>, g: Grid, q: Quantity, x: Extreme)
    requires HaloedWithin(p, fs, g, 1)
    ensures Sum(|fs|, RankSum(p, fs, q)) == GridSum(p.nx, p.ny, GridSummand(p, g, q))
    ensures ReduceMax(|fs|, RankMax(p, fs, x)) == GridLargest(p.nx, p.ny, GridCandidate(p, g, x), 0.0)
  {
    hide BlockStart;
    hide BlockSize;
    hide LocalSummand;
    hide LocalCandidate;
    hide GridSummand;
    hide GridCandidate;
    hide GridSum;
    hide GridLargest;
    hide BlockValues;
    var n, e, c := |fs|, GridSummand(p, g, q), GridCandidate(p, g, x);
    var sums := r => if 0 <= r < n then LocalSummand(p, Rows(p, n, r), fs[r], q) else e;
    var maxima := r => if 0 <= r < n then LocalCandidate(p, Rows(p, n, r), fs[r], x) else c;
    forall r | 0 <= r < n
      ensures 1 <= Rows(p, n, r) && BlockValues(p, n, r, sums(r), e) && BlockValues(p, n, r, maxima(r), c)
    {
      BlockDiagnostics(p, fs, g, r, q, x);
    }
    hide HaloedWithin;
    assert BlockSums(p, n, sums, RankSum(p, fs, q));
    SumOverRanks(p, n, sums, e, RankSum(p, fs, q));
    assert BlockMaxima(p, n, maxima, 0.0, RankMax(p, fs, x));
    MaxOverRanks(p, n, maxima, c, 0.0, RankMax(p, fs, x));
  }

  /** An admissible cell's energy is the sum of its three parts. */
  lemma EnergySplits(p: Params, c: State, w: State, e: State, s: State, n: State)
    requires Admissible(p, c)
    ensures Summand(p, EnergyTotal, c, w, e, s, n)
         == Summand(p, Kinetic, c, w, e, s, n) + Summand(p, Magnetic, c, w, e, s, n)
             + Summand(p, Internal, c, w, e, s, n)
  {
    RegularizeFixesExactlyAdmissible(p, c);
    assert c.e == Regularize(p, c).e;
    hide SumSquares;
  }

  lemma AdvanceAdmissible(p: Params, dt: real, g: Grid, i: int, j: int)
    requires Shape(g, p.nx, p.ny) && 0 <= i < p.nx && 0 <= j < p.ny
    ensures Admissible(p, Advance(p, dt, g)[j][i])
  {
    hide Unfloored;
    hide Admissible;
    hide Regularize;
    RegularizeProjects(p, Unfloored(p, dt, g)[j][i]);
  }

  lemma CellEnergySplits(p: Params, g: Grid, i: int, j: int)
    requires Shape(g, p.nx, p.ny) && 0 <= i < p.nx && 0 <= j < p.ny && Admissible(p, g[j][i])
    ensures GridCellSummand(p, g, EnergyTotal, i, j)
         == GridCellSummand(p, g, Kinetic, i, j) + GridCellSummand(p, g, Magnetic, i, j)
            + GridCellSummand(p, g, Internal, i, j)
  {
    hide Admissible;
    hide Summand;
    assert At(p, g, i, j) == g[j][i];
    EnergySplits(p, At(p, g, i, j), At(p, g, i - 1, j), At(p, g, i + 1, j), At(p, g, i, j - 1), At(p, g, i, j + 1));
    hide At;
  }

  function GridEnergy(p: Params, g: Grid, q: Quantity): real
    requires Shape(g, p.nx, p.ny)
  {
    GridSum(p.nx, p.ny, GridSummand(p, g, q))
  }

  /** After any step the reported total energy is kinetic plus magnetic plus internal. */
  lemma EnergyBudget(p: Params, dt: real, g: Grid)
    requires Shape(g, p.nx, p.ny)
    ensures var h := Advance(p, dt, g);
            GridEnergy(p, h, EnergyTotal) == GridEnergy(p, h, Kinetic) + GridEnergy(p, h, Magnetic)
                + GridEnergy(p, h, Internal)
  {
    hide Advance;
    hide Admissible;
    hide GridCellSummand;
    hide GridSum;
    var h := Advance(p, dt, g);
    var k, m, t := GridSummand(p, h, Kinetic), GridSummand(p, h, Magnetic), GridSummand(p, h, Internal);
    var km := (i, j) => k(i, j) + m(i, j);
    var e := GridSummand(p, h, EnergyTotal);
    forall i, j | 0 <= i < p.nx && 0 <= j < p.ny ensures e(i, j) == km(i, j) + t(i, j) {
      AdvanceAdmissible(p, dt, g, i, j);
      CellEnergySplits(p, h, i, j);
    }
    GridSumAdd(p.nx, p.ny, k, m, km);
    GridSumAdd(p.nx, p.ny, km, t, e);
  }

  // ----- The reported diagnostics -----

  datatype ScalarDiagnostics = ScalarDiagnostics(
    mass: real, kineticEnergy: real, magneticEnergy: real, internalEnergy: real, totalEnergy: real, meanPressure: real,
    maxSpeed: real, currentAbsMax: real, currentRms: real, divbAbsMax: real, divbL2: real)

  function CellArea(p: Params): real {
    Times(Dx(p), Dy(p))
  }

  function Mean(p: Params, total: real): real {
    PositiveCells(p);
    Times(total, 1.0 / (p.nx * p.ny) as real)
  }

  lemma PositiveCells(p: Params)
    ensures 0 < p.nx * p.ny
  {
  }

  /** The report made from the global sums and maxima. */
  function Report(p: Params, sums: Quantity -> real, maxima: Extreme -> real): ScalarDiagnostics {
    var area := CellArea(p);
    ScalarDiagnostics(
      Times(area, sums(Density)), Times(area, sums(Kinetic)), Times(area, sums(Magnetic)), Times(area, sums(Internal)),
      Times(area, sums(EnergyTotal)), Mean(p, sums(Pressure)), maxima(FlowSpeed), maxima(Current),
      p.sqrt(Mean(p, sums(CurrentSquared))), maxima(FieldDivergence), p.sqrt(Mean(p, sums(DivergenceSquared))))
  }

  /** The report of the whole periodic grid, without ranks. */
  function GridReport(p: Params, g: Grid): ScalarDiagnostics
    requires Shape(g, p.nx, p.ny)
  {
    Report(p, q => GridEnergy(p, g, q), x => GridLargest(p.nx, p.ny, GridCandidate(p, g, x), 0.0))
  }

  /** The report every rank makes after the two reductions. */
  function ClusterReport(p: Params, fs: seq<Field>): ScalarDiagnostics
    requires IsCluster(p, fs)
  {
    Report(p, q => Sum(|fs|, RankSum(p, fs, q)), x => ReduceMax(|fs|, RankMax(p, fs, x)))
  }

  lemma SameReport(p: Params, sums: Quantity -> real, maxima: Extreme -> real,
                   sums': Quantity -> real, maxima': Extreme -> real)
    requires forall q :: sums(q) == sums'(q)
    requires forall x :: maxima(x) == maxima'(x)
    ensures Report(p, sums, maxima) == Report(p, sums', maxima')
  {
    hide Mean;
    hide Times;
    hide CellArea;
  }

  /** All ranks report what one rank on the whole grid would. */
  lemma ReportAgrees(p: Params, fs: seq<Field>, g: Grid)
    requires HaloedWithin(p, fs, g, 1)
    ensures ClusterReport(p, fs) == GridReport(p, g)
  {
    assert IsCluster(p, fs) && Shape(g, p.nx, p.ny);
    hide GridSum;
    hide GridLargest;
    hide Sum;
    hide ReduceMax;
    hide HaloedWithin;
    hide RankSum;
    hide RankMax;
    hide GridSummand;
    hide GridCandidate;
    var sums: Quantity -> real, maxima: Extreme -> real :=
      q => Sum(|fs|, RankSum(p, fs, q)), x => ReduceMax(|fs|, RankMax(p, fs, x));
    var sums': Quantity -> real, maxima': Extreme -> real :=
      q => GridEnergy(p, g, q), x => GridLargest(p.nx, p.ny, GridCandidate(p, g, x), 0.0);
    forall q ensures sums(q) == sums'(q) {
      DiagnosticsAgree(p, fs, g, q, FlowSpeed);
    }
    forall x ensures maxima(x) == maxima'(x) {
      DiagnosticsAgree(p, fs, g, Density, x);
    }
    SameReport(p, sums, maxima, sums', maxima');
    hide Report;
  }

  /** After any run all ranks report what one rank on the whole grid would. */
  lemma RunReportAgrees(p: Params, dts: seq<real>, fs: seq<Field>, g: Grid)
    requires Owns(p, fs, g) && WideForRun(p, |fs|) && dts != []
    ensures ClusterReport(p, ClusterRun(p, dts, fs)) == GridReport(p, Run(p, dts, g))
  {
    hide ClusterReport;
    hide GridReport;
    hide ClusterRun;
    hide Run;
    hide HaloedBlock;
    hide OwnsBlock;
    RunRefines(p, dts, fs, g, 1);
    ReportAgrees(p, ClusterRun(p, dts, fs), Run(p, dts, g));
  }

  // ----- The energy budget of a distributed step, however narrow the ranks -----

  ghost predicate AdmissibleField(p: Params, rows: int, f: Field) {
    IsField(p, rows, f) && forall i, j :: InCells(p, rows, i, j) ==> Admissible(p, f[j][i])
  }

  lemma FloorsAdmit(p: Params, rows: int, f: Field)
    requires IsField(p, rows, f)
    ensures AdmissibleField(p, rows, FieldFloors(p, rows, f))
  {
    hide Admissible;
    hide Regularize;
    forall i, j | InCells(p, rows, i, j) ensures Admissible(p, FieldFloors(p, rows, f)[j][i]) {
      assert InField(p, rows, i, j);
      RegularizeProjects(p, f[j][i]);
    }
  }

  ghost predicate AllAdmit(p: Params, fs: seq<Field>) {
    IsCluster(p, fs) && forall r :: 0 <= r < |fs| ==> AdmissibleField(p, Rows(p, |fs|, r), fs[r])
  }

  /** The exchange touches no rank's own cells. */
  lemma ExchangeKeepsAdmissible(p: Params, fs: seq<Field>)
    requires AllAdmit(p, fs)
    ensures AllAdmit(p, Exchange(p, fs))
  {
    hide Admissible;
    hide BlockSize;
    forall r | 0 <= r < |fs| ensures AdmissibleField(p, Rows(p, |fs|, r), Exchange(p, fs)[r]) {
      var rows := Rows(p, |fs|, r);
      forall i, j | InCells(p, rows, i, j) ensures Exchange(p, fs)[r][j][i] == fs[r][j][i] {
        assert InField(p, rows, i, j);
      }
    }
  }

  lemma ClusterAdvanceAdmits(p: Params, dt: real, fs: seq<Field>)
    requires IsCluster(p, fs)
    ensures AllAdmit(p, ClusterAdvance(p, dt, fs))
  {
    hide AdmissibleField;
    hide Exchange;
    hide FieldRhs;
    hide FieldEuler;
    hide FieldHeun;
    hide FieldFloors;
    hide BlockSize;
    var us := Exchange(p, fs);
    var second := p.reconstruction == MUSCL;
    var ss := AllPhaseOne(p, second, dt, us);
    forall r | 0 <= r < |fs| ensures AdmissibleField(p, Rows(p, |fs|, r), ss[r]) {
      var rows := Rows(p, |fs|, r);
      FloorsAdmit(p, rows, FieldEuler(p, rows, dt, us[r], FieldRhs(p, rows, second, us[r])));
    }
    if second {
      var s := Exchange(p, ss);
      var ws := AllPhaseTwo(p, dt, us, s);
      forall r | 0 <= r < |fs| ensures AdmissibleField(p, Rows(p, |fs|, r), ws[r]) {
        var rows := Rows(p, |fs|, r);
        FloorsAdmit(p, rows, FieldHeun(p, rows, dt, us[r], s[r], FieldRhs(p, rows, true, s[r])));
      }
      ExchangeKeepsAdmissible(p, ws);
    } else {
      ExchangeKeepsAdmissible(p, ss);
    }
  }

  lemma FieldCellEnergySplits(p: Params, rows: int, f: Field, i: int, j: int)
    requires IsField(p, rows, f) && InCells(p, rows, i, j) && Admissible(p, f[j][i])
    ensures FieldCellSummand(p, rows, f, EnergyTotal, i, j)
         == FieldCellSummand(p, rows, f, Kinetic, i, j) + FieldCellSummand(p, rows, f, Magnetic, i, j)
            + FieldCellSummand(p, rows, f, Internal, i, j)
  {
    hide Admissible;
    hide Summand;
    EnergySplits(p, f[j][i], f[j][i - 1], f[j][i + 1], f[j - 1][i], f[j + 1][i]);
  }

  /** The sum of one quantity over a rank's block. */
  function BlockEnergy(p: Params, rows: int, f: Field, q: Quantity): real
    requires IsField(p, rows, f)
  {
    GridSum(p.nx, rows, LocalSummand(p, rows, f, q))
  }

  lemma BlockEnergySplits(p: Params, rows: int, f: Field)
    requires AdmissibleField(p, rows, f)
    ensures BlockEnergy(p, rows, f, EnergyTotal)
         == BlockEnergy(p, rows, f, Kinetic) + BlockEnergy(p, rows, f, Magnetic) + BlockEnergy(p, rows, f, Internal)
  {
    hide Admissible;
    hide GridSum;
    hide FieldCellSummand;
    var e, k := LocalSummand(p, rows, f, EnergyTotal), LocalSummand(p, rows, f, Kinetic);
    var m, t := LocalSummand(p, rows, f, Magnetic), LocalSummand(p, rows, f, Internal);
    var km := (i, j) => k(i, j) + m(i, j);
    forall i, j | 0 <= i < p.nx && 0 <= j < rows ensures e(i, j) == km(i, j) + t(i, j) {
      assert InCells(p, rows, p.ng + i, p.ng + j);
      FieldCellEnergySplits(p, rows, f, p.ng + i, p.ng + j);
    }
    GridSumAdd(p.nx, rows, k, m, km);
    GridSumAdd(p.nx, rows, km, t, e);
  }

  /** The sum of one quantity over all ranks. */
  function ClusterEnergy(p: Params, fs: seq<Field>, q: Quantity): real
    requires IsCluster(p, fs)
  {
    Sum(|fs|, RankSum(p, fs, q))
  }

  lemma ClusterEnergySplits(p: Params, fs: seq<Field>)
    requires AllAdmit(p, fs)
    ensures ClusterEnergy(p, fs, EnergyTotal)
         == ClusterEnergy(p, fs, Kinetic) + ClusterEnergy(p, fs, Magnetic) + ClusterEnergy(p, fs, Internal)
  {
    hide BlockSize;
    hide GridSum;
    hide LocalSummand;
    hide Sum;
    hide AdmissibleField;
    var n, e, k := |fs|, RankSum(p, fs, EnergyTotal), RankSum(p, fs, Kinetic);
    var m, t := RankSum(p, fs, Magnetic), RankSum(p, fs, Internal);
    var km := r => k(r) + m(r);
    forall r | 0 <= r < n ensures e(r) == km(r) + t(r) {
      BlockEnergySplits(p, Rows(p, n, r), fs[r]);
    }
    SumAdd(n, k, m, km);
    SumAdd(n, km, t, e);
  }

  lemma ReportAddsUp(p: Params, sums: Quantity -> real, maxima: Extreme -> real)
    requires sums(EnergyTotal) == sums(Kinetic) + sums(Magnetic) + sums(Internal)
    ensures var d := Report(p, sums, maxima);
            d.totalEnergy == d.kineticEnergy + d.magneticEnergy + d.internalEnergy
  {
    TimesAdds(CellArea(p), sums(Kinetic), sums(Magnetic));
    TimesAdds(CellArea(p), sums(Kinetic) + sums(Magnetic), sums(Internal));
    hide Times;
    hide Mean;
    hide CellArea;
  }

  /** After any distributed step the reported total energy is the sum of the reported kinetic,
      magnetic and internal energies: for every number of ranks and every state. */
  lemma ReportedEnergyBudget(p: Params, dt: real, fs: seq<Field>)
    requires IsCluster(p, fs)
    ensures var d := ClusterReport(p, ClusterAdvance(p, dt, fs));
            d.totalEnergy == d.kineticEnergy + d.magneticEnergy + d.internalEnergy
  {
    var hs := ClusterAdvance(p, dt, fs);
    ClusterAdvanceAdmits(p, dt, fs);
    hide ClusterAdvance;
    ClusterEnergySplits(p, hs);
    hide Sum;
    hide RankSum;
    hide RankMax;
    hide ReduceMax;
    hide AllAdmit;
    var sums: Quantity -> real, maxima: Extreme -> real :=
      q => Sum(|hs|, RankSum(p, hs, q)), x => ReduceMax(|hs|, RankMax(p, hs, x));
    ReportAddsUp(p, sums, maxima);
    hide Report;
  }
}
