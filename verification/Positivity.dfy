/** The CFL time step, and why it keeps densities positive under the first-order scheme. */
module Positivity {
  import opened States
  import opened Physics
  import opened FaceLemmas
  import opened PeriodicGrid
  import opened Sums

  const SPEED_FLOOR := 0.000000000001

  function CellSpeed(p: Params, s: State): real {
    Max(SignalSpeed(p, s, X), SignalSpeed(p, s, Y))
  }

  /** The wave speed of cell (i, j), as a total function. */
  function Speed(p: Params, g: Grid): (int, int) -> real {
    (i, j) => if 0 <= j < |g| && 0 <= i < |g[j]| then CellSpeed(p, g[j][i]) else 0.0
  }

  function Fastest(p: Params, g: Grid): real {
    Max(GridLargest(p.nx, p.ny, Speed(p, g), SPEED_FLOOR), p.glmCh)
  }

  /** The step for a given largest speed. */
  function StepFor(p: Params, fastest: real): real {
    p.cfl * Min(Dx(p), Dy(p)) / Max(fastest, SPEED_FLOOR)
  }

  function TimeStep(p: Params, g: Grid): real {
    if p.fixedDt > 0.0 then p.fixedDt else StepFor(p, Fastest(p, g))
  }

  lemma SpeedsBounded(p: Params, g: Grid)
    requires Shape(g, p.nx, p.ny)
    ensures SPEED_FLOOR <= Fastest(p, g)
    ensures forall i, j, dir :: 0 <= i < p.nx && 0 <= j < p.ny ==> SignalSpeed(p, g[j][i], dir) <= Fastest(p, g)
  {
    hide SignalSpeed;
    var e := Speed(p, g);
    GridLargestIs(p.nx, p.ny, e, SPEED_FLOOR);
    hide GridLargest;
    forall i, j, dir | 0 <= i < p.nx && 0 <= j < p.ny ensures SignalSpeed(p, g[j][i], dir) <= Fastest(p, g) {
      assert e(i, j) == CellSpeed(p, g[j][i]);
      assert dir == X || dir == Y;
    }
  }

  /** Flooring a cell does not change its speeds. */
  lemma SpeedIgnoresFloors(p: Params, s: State, dir: Direction)
    ensures SignalSpeed(p, Regularize(p, s), dir) == SignalSpeed(p, s, dir)
  {
    RegularizeIdempotent(p, s);
    hide Regularize;
    hide ToPrimitive;
    hide FastMagnetosonic;
  }

  /** The first-order mass flux between two cells no faster than `a`. */
  lemma FaceMass(p: Params, dir: Direction, ll: State, l: State, r: State, rr: State, a: real)
    requires NonNegativeRoot(p) && SignalSpeed(p, l, dir) <= a && SignalSpeed(p, r, dir) <= a
    ensures var f := FaceFlux(p, false, dir, ll, l, r, rr).rho;
            && f <= Share(Regularize(p, l).rho, NormalVelocity(ToPrimitive(p, l), dir), a)
            && f >= -Share(Regularize(p, r).rho, -NormalVelocity(ToPrimitive(p, r), dir), a)
  {
    SpeedIgnoresFloors(p, l, dir);
    SpeedIgnoresFloors(p, r, dir);
    RegularizeIdempotent(p, l);
    RegularizeIdempotent(p, r);
    FlooredDensity(p, l);
    FlooredDensity(p, r);
    hide Regularize;
    hide ToPrimitive;
    hide SignalSpeed;
    hide Share;
    MassFluxBounds(p, Regularize(p, l), Regularize(p, r), dir, a);
    hide RiemannFlux;
  }

  lemma FlooredDensity(p: Params, s: State)
    ensures Regularize(p, s).rho == Max(s.rho, p.rhoFloor)
  {
  }

  /** What one direction can take out of a cell: at most its mass times the fastest speed. */
  lemma OutflowBound(p: Params, dir: Direction, ll: State, l: State, c: State, r: State, rr: State, a: real)
    requires NonNegativeRoot(p)
    requires SignalSpeed(p, l, dir) <= a && SignalSpeed(p, c, dir) <= a && SignalSpeed(p, r, dir) <= a
    ensures FaceFlux(p, false, dir, l, c, r, rr).rho - FaceFlux(p, false, dir, ll, l, c, r).rho
         <= Times(Max(c.rho, p.rhoFloor), a)
  {
    FaceMass(p, dir, ll, l, c, r, a);
    FaceMass(p, dir, l, c, r, rr, a);
    FlooredDensity(p, c);
    SharesAddUp(Max(c.rho, p.rhoFloor), NormalVelocity(ToPrimitive(p, c), dir), a);
    hide FaceFlux;
    hide Regularize;
    hide ToPrimitive;
    hide SignalSpeed;
    hide Share;
    hide Times;
  }

  lemma SharesAddUp(rho: real, v: real, a: real)
    ensures Share(rho, v, a) + Share(rho, -v, a) == Times(rho, a)
  {
  }

  lemma OutflowLimited(rho: real, dt: real, xw: real, xe: real, ys: real, yn: real, dx: real, dy: real,
                       a: real, cfl: real)
    requires 0.0 < dx && 0.0 < dy && 0.0 <= dt && 0.0 <= rho && 0.0 <= a
    requires xe - xw <= Times(rho, a) && yn - ys <= Times(rho, a)
    requires dt * a <= cfl * Min(dx, dy) && 0.0 <= cfl
    ensures Times(dt, NetFlux(xw, xe, ys, yn, dx, dy)) >= -Times(2.0 * cfl, rho)
  {
    DirectionLimited(rho, dt, xe - xw, dx, a, cfl, Min(dx, dy));
    DirectionLimited(rho, dt, yn - ys, dy, a, cfl, Min(dx, dy));
    var x, y := Quotient(xe - xw, dx), Quotient(yn - ys, dy);
    assert dt * NetFlux(xw, xe, ys, yn, dx, dy) == -(dt * x + dt * y);
  }

  lemma DirectionLimited(rho: real, dt: real, diff: real, d: real, a: real, cfl: real, m: real)
    requires 0.0 < d && 0.0 <= dt && 0.0 <= rho && 0.0 <= a && m <= d && 0.0 <= cfl
    requires diff <= Times(rho, a) && dt * a <= cfl * m
    ensures dt * Quotient(diff, d) <= cfl * rho
  {
    var q := Quotient(diff, d);
    assert q * d == diff;
    assert cfl * m <= cfl * d;
    // dt q d <= dt a rho <= cfl d rho
    assert dt * diff <= dt * (rho * a);
    assert dt * (rho * a) == (dt * a) * rho;
    assert (dt * a) * rho <= (cfl * d) * rho;
    assert (dt * q) * d <= (cfl * rho) * d;
    CancelPositive(dt * q, cfl * rho, d);
  }

  lemma CancelPositive(x: real, y: real, d: real)
    requires 0.0 < d && x * d <= y * d
    ensures x <= y
  {
  }

  lemma StepWithinCfl(p: Params, fastest: real, dt: real)
    requires SPEED_FLOOR <= fastest && dt <= StepFor(p, fastest)
    ensures dt * fastest <= p.cfl * Min(Dx(p), Dy(p))
  {
    var c := p.cfl * Min(Dx(p), Dy(p));
    var q := c / fastest;
    assert q * fastest == c;
    assert dt <= q;
    assert dt * fastest <= q * fastest;
  }

  lemma NeighbourSpeeds(p: Params, g: Grid, i: int, j: int, dir: Direction)
    requires Shape(g, p.nx, p.ny) && -p.nx <= i < 2 * p.nx && -p.ny <= j < 2 * p.ny
    ensures SignalSpeed(p, At(p, g, i, j), dir) <= Fastest(p, g)
  {
    hide SignalSpeed;
    hide Fastest;
    SpeedsBounded(p, g);
  }

  lemma CellOutflow(p: Params, g: Grid, i: int, j: int)
    requires NonNegativeRoot(p) && Shape(g, p.nx, p.ny) && 0 <= i < p.nx && 0 <= j < p.ny
    ensures var m := Times(Max(g[j][i].rho, p.rhoFloor), Fastest(p, g));
            && WestFace(p, false, g, i + 1, j).rho - WestFace(p, false, g, i, j).rho <= m
            && SouthFace(p, false, g, i, j + 1).rho - SouthFace(p, false, g, i, j).rho <= m
  {
    hide FaceFlux;
    hide SignalSpeed;
    hide Fastest;
    hide Times;
    var a, c := Fastest(p, g), At(p, g, i, j);
    NeighbourSpeeds(p, g, i, j, X);
    NeighbourSpeeds(p, g, i - 1, j, X);
    NeighbourSpeeds(p, g, i + 1, j, X);
    NeighbourSpeeds(p, g, i, j, Y);
    NeighbourSpeeds(p, g, i, j - 1, Y);
    NeighbourSpeeds(p, g, i, j + 1, Y);
    OutflowBound(p, X, At(p, g, i - 2, j), At(p, g, i - 1, j), c, At(p, g, i + 1, j), At(p, g, i + 2, j), a);
    OutflowBound(p, Y, At(p, g, i, j - 2), At(p, g, i, j - 1), c, At(p, g, i, j + 1), At(p, g, i, j + 2), a);
  }

  /** Under the first-order scheme and a step within the CFL limit, no cell loses more than the
      fraction 2 cfl of its floored density before the floors act: for both Riemann solvers, in
      every branch, on every grid. */
  lemma DensityLossBound(p: Params, dt: real, g: Grid, i: int, j: int)
    requires NonNegativeRoot(p) && p.reconstruction == FirstOrder && p.fixedDt <= 0.0 && 0.0 <= p.cfl
    requires Shape(g, p.nx, p.ny) && 0 <= i < p.nx && 0 <= j < p.ny
    requires 0.0 <= dt <= TimeStep(p, g)
    ensures Unfloored(p, dt, g)[j][i].rho >= g[j][i].rho - Times(2.0 * p.cfl, Max(g[j][i].rho, p.rhoFloor))
  {
    hide WestFace;
    hide SouthFace;
    hide Fastest;
    hide Times;
    hide NetFlux;
    SpeedsBounded(p, g);
    StepWithinCfl(p, Fastest(p, g), dt);
    hide StepFor;
    CellOutflow(p, g, i, j);
    OutflowLimited(Max(g[j][i].rho, p.rhoFloor), dt, WestFace(p, false, g, i, j).rho,
                   WestFace(p, false, g, i + 1, j).rho,
                   SouthFace(p, false, g, i, j).rho, SouthFace(p, false, g, i, j + 1).rho,
                   Dx(p), Dy(p), Fastest(p, g), p.cfl);
  }

  /** So a cell at or above the density floor keeps at least the fraction 1 - 2 cfl. */
  lemma DensityLowerBound(p: Params, dt: real, g: Grid, i: int, j: int)
    requires NonNegativeRoot(p) && p.reconstruction == FirstOrder && p.fixedDt <= 0.0 && 0.0 <= p.cfl
    requires Shape(g, p.nx, p.ny) && 0 <= i < p.nx && 0 <= j < p.ny
    requires 0.0 <= dt <= TimeStep(p, g) && p.rhoFloor <= g[j][i].rho
    ensures Unfloored(p, dt, g)[j][i].rho >= Times(1.0 - 2.0 * p.cfl, g[j][i].rho)
  {
    hide Unfloored;
    hide TimeStep;
    DensityLossBound(p, dt, g, i, j);
    var c, rho := p.cfl, g[j][i].rho;
    assert rho - Times(2.0 * c, rho) == Times(1.0 - 2.0 * c, rho);
  }

  /** Every density is at or above its floor. */
  ghost predicate AboveFloor(p: Params, g: Grid) {
    Shape(g, p.nx, p.ny) && forall i, j :: 0 <= i < p.nx && 0 <= j < p.ny ==> p.rhoFloor <= g[j][i].rho
  }

  /** Every step of a run stays within the limit computed from the grid it starts from. */
  ghost predicate WithinCfl(p: Params, dts: seq<real>, g: Grid)
    requires Shape(g, p.nx, p.ny)
    decreases |dts|
  {
    dts == [] || (0.0 <= dts[0] <= TimeStep(p, g) && WithinCfl(p, dts[1..], Advance(p, dts[0], g)))
  }

  /** In every step of a run each cell keeps at least the fraction 1 - 2 cfl of its density. */
  ghost predicate KeepsDensity(p: Params, dts: seq<real>, g: Grid)
    requires Shape(g, p.nx, p.ny)
    decreases |dts|
  {
    dts == [] ||
    (&& (forall i, j :: 0 <= i < p.nx && 0 <= j < p.ny ==>
           Unfloored(p, dts[0], g)[j][i].rho >= Times(1.0 - 2.0 * p.cfl, g[j][i].rho))
     && KeepsDensity(p, dts[1..], Advance(p, dts[0], g)))
  }

  lemma AdvanceAboveFloor(p: Params, dt: real, g: Grid)
    requires Shape(g, p.nx, p.ny)
    ensures AboveFloor(p, Advance(p, dt, g))
  {
    hide Unfloored;
    var u := Unfloored(p, dt, g);
    forall i, j | 0 <= i < p.nx && 0 <= j < p.ny ensures p.rhoFloor <= Regularize(p, u[j][i]).rho {
      FlooredDensity(p, u[j][i]);
    }
    hide Regularize;
  }

  lemma {:induction false} DensityOverRuns(p: Params, dts: seq<real>, g: Grid)
    requires NonNegativeRoot(p) && p.reconstruction == FirstOrder && p.fixedDt <= 0.0 && 0.0 <= p.cfl
    requires AboveFloor(p, g) && WithinCfl(p, dts, g)
    ensures KeepsDensity(p, dts, g)
    decreases |dts|
  {
    hide TimeStep;
    hide Unfloored;
    if dts != [] {
      forall i, j | 0 <= i < p.nx && 0 <= j < p.ny
        ensures Unfloored(p, dts[0], g)[j][i].rho >= Times(1.0 - 2.0 * p.cfl, g[j][i].rho)
      {
        DensityLowerBound(p, dts[0], g, i, j);
      }
      AdvanceAboveFloor(p, dts[0], g);
      hide Advance;
      DensityOverRuns(p, dts[1..], Advance(p, dts[0], g));
    }
  }

  /** With cfl at most one half no density turns negative before the floors act. */
  lemma DensityStaysNonNegative(p: Params, dt: real, g: Grid, i: int, j: int)
    requires NonNegativeRoot(p) && p.reconstruction == FirstOrder && p.fixedDt <= 0.0 && 0.0 <= p.cfl <= 0.5
    requires Shape(g, p.nx, p.ny) && 0 <= i < p.nx && 0 <= j < p.ny
    requires 0.0 <= dt <= TimeStep(p, g) && p.rhoFloor <= g[j][i].rho
    ensures 0.0 <= Unfloored(p, dt, g)[j][i].rho
  {
    hide Unfloored;
    hide TimeStep;
    DensityLowerBound(p, dt, g, i, j);
    NonNegativeProduct(1.0 - 2.0 * p.cfl, g[j][i].rho);
  }

  // ----- The time step, exactly -----

  /** The speed of one of the two fast waves of a cell. */
  function WaveSpeed(p: Params, s: State, dir: Direction, forward: bool): real {
    var w := ToPrimitive(p, s);
    var c := FastMagnetosonic(p, w, dir);
    Abs(if forward then NormalVelocity(w, dir) + c else NormalVelocity(w, dir) - c)
  }

  /** The signal speed is the speed of the faster of the two. */
  lemma SignalSpeedIs(p: Params, s: State, dir: Direction)
    requires NonNegativeRoot(p)
    ensures SignalSpeed(p, s, dir) == Max(WaveSpeed(p, s, dir, true), WaveSpeed(p, s, dir, false))
  {
    FastSpeedNonNegative(p, ToPrimitive(p, s), dir);
    hide ToPrimitive;
    hide FastMagnetosonic;
  }

  /** `w` is the speed of some wave of some cell. */
  ghost predicate OccursIn(p: Params, g: Grid, w: real) {
    exists i, j, dir, forward :: 0 <= j < |g| && 0 <= i < |g[j]| && w == WaveSpeed(p, g[j][i], dir, forward)
  }

  /** A speed the step must resolve: a wave's, that of the cleaning, or the smallest allowed. */
  ghost predicate IsSpeed(p: Params, g: Grid, w: real) {
    OccursIn(p, g, w) || w == p.glmCh || w == SPEED_FLOOR
  }

  lemma FastestIs(p: Params, g: Grid)
    requires NonNegativeRoot(p) && Shape(g, p.nx, p.ny)
    ensures IsSpeed(p, g, Fastest(p, g))
    ensures forall w :: IsSpeed(p, g, w) ==> w <= Fastest(p, g)
  {
    hide WaveSpeed;
    hide SignalSpeed;
    var e, m := Speed(p, g), GridLargest(p.nx, p.ny, Speed(p, g), SPEED_FLOOR);
    GridLargestIs(p.nx, p.ny, e, SPEED_FLOOR);
    hide GridLargest;
    forall w | OccursIn(p, g, w) ensures w <= m {
      var i, j, dir, forward :| 0 <= j < |g| && 0 <= i < |g[j]| && w == WaveSpeed(p, g[j][i], dir, forward);
      SignalSpeedIs(p, g[j][i], dir);
      assert e(i, j) == CellSpeed(p, g[j][i]) <= m;
      assert dir == X || dir == Y;
    }
    if m != SPEED_FLOOR {
      var i, j :| 0 <= i < p.nx && 0 <= j < p.ny && e(i, j) == m;
      SignalSpeedIs(p, g[j][i], X);
      SignalSpeedIs(p, g[j][i], Y);
      var dir := if SignalSpeed(p, g[j][i], X) < SignalSpeed(p, g[j][i], Y) then Y else X;
      var forward := !(WaveSpeed(p, g[j][i], dir, true) < WaveSpeed(p, g[j][i], dir, false));
      assert m == WaveSpeed(p, g[j][i], dir, forward);
    }
  }

  /** How far a wave may travel in a step. */
  function CflLength(p: Params): real {
    p.cfl * Min(Dx(p), Dy(p))
  }

  lemma StepCrosses(p: Params, w: real)
    requires SPEED_FLOOR <= w
    ensures StepFor(p, w) * w == CflLength(p)
  {
    var c := CflLength(p);
    assert (c / w) * w == c;
  }

  lemma FastestCrosses(p: Params, g: Grid)
    requires NonNegativeRoot(p) && Shape(g, p.nx, p.ny) && p.fixedDt <= 0.0
    ensures IsSpeed(p, g, Fastest(p, g)) && forall w :: IsSpeed(p, g, w) ==> w <= Fastest(p, g)
    ensures 0.0 < Fastest(p, g) && Times(TimeStep(p, g), Fastest(p, g)) == CflLength(p)
  {
    hide IsSpeed;
    hide Fastest;
    FastestIs(p, g);
    SpeedsBounded(p, g);
    StepCrosses(p, Fastest(p, g));
    hide StepFor;
    hide CflLength;
  }

  /** A positive fixed step is taken as it is; else some speed of the grid crosses exactly cfl cell
      widths in the step. */
  lemma TimeStepAttained(p: Params, g: Grid) returns (w: real)
    requires NonNegativeRoot(p) && Shape(g, p.nx, p.ny)
    ensures 0.0 < p.fixedDt ==> TimeStep(p, g) == p.fixedDt
    ensures IsSpeed(p, g, w) && (p.fixedDt <= 0.0 ==> Times(TimeStep(p, g), w) == CflLength(p))
  {
    hide IsSpeed;
    hide Fastest;
    hide StepFor;
    hide Times;
    hide CflLength;
    FastestIs(p, g);
    w := Fastest(p, g);
    if p.fixedDt <= 0.0 { FastestCrosses(p, g); }
  }

  /** And it is the longest step in which no speed crosses more. */
  lemma TimeStepIsLongest(p: Params, g: Grid, dt: real)
    requires NonNegativeRoot(p) && Shape(g, p.nx, p.ny) && p.fixedDt <= 0.0 && 0.0 <= dt
    ensures dt <= TimeStep(p, g) <==> forall w :: IsSpeed(p, g, w) ==> Times(dt, w) <= CflLength(p)
  {
    hide IsSpeed;
    hide TimeStep;
    hide CflLength;
    hide Times;
    hide Fastest;
    FastestCrosses(p, g);
    LongestFor(TimeStep(p, g), Fastest(p, g), CflLength(p), dt);
  }

  lemma LongestFor(step: real, a: real, limit: real, dt: real)
    requires 0.0 < a && 0.0 <= dt && Times(step, a) == limit
    ensures dt <= step <==> Times(dt, a) <= limit
    ensures forall w {:trigger Times(dt, w)} :: w <= a ==> Times(dt, w) <= Times(dt, a)
  {
    forall w | w <= a ensures Times(dt, w) <= Times(dt, a) {
      NonNegativeProduct(dt, a - w);
    }
    if dt <= step {
      NonNegativeProduct(step - dt, a);
    } else {
      assert 0.0 < (dt - step) * a;
    }
  }
}
