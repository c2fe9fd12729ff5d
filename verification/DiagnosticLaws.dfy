/** What the reported diagnostics mean: difference quotients that vanish on curls and gradients,
    integrals over the domain, means over the cells, and totals the scheme conserves. */
module DiagnosticLaws {
  import opened States
  import opened Physics
  import opened FaceLemmas
  import opened PeriodicGrid
  import opened Sums
  import opened Conservation
  import opened Symmetry
  import opened Positivity
  import opened Reductions

  // ----- Difference quotients -----

  lemma QuotientTwice(a: real, b: real, h: real, k: real)
    requires h != 0.0 && k != 0.0
    ensures Quotient(Quotient(a, h) - Quotient(b, h), k) == Quotient(Quotient(a - b, k), h)
  {
    QuotientAdds(a - b, b, h);
    SwapQuotients(a - b, h, k);
    hide Quotient;
  }

  lemma SwapQuotients(x: real, h: real, k: real)
    requires h != 0.0 && k != 0.0
    ensures Quotient(Quotient(x, h), k) == Quotient(Quotient(x, k), h)
  {
    var a, b := x / h, x / k;
    assert a * h == x && b * k == x;
    var c, d := a / k, b / h;
    assert c * k == a && d * h == b;
    assert (c * k) * h == x && (d * h) * k == x;
    assert (c - d) * (h * k) == 0.0;
    assert h * k != 0.0;
  }

  lemma QuotientOdd(a: real, h: real)
    requires h != 0.0
    ensures Quotient(-a, h) == -Quotient(a, h)
  {
    QuotientAdds(a, -a, h);
    hide Quotient;
  }

  /** The four differences of corner values around a cell. */
  lemma CrossDifferences(ne: real, nw: real, se: real, sw: real, h: real, k: real)
    requires h != 0.0 && k != 0.0
    ensures Quotient(Quotient(ne - se, k) - Quotient(nw - sw, k), h)
         == Quotient(Quotient(ne - nw, h) - Quotient(se - sw, h), k)
  {
    QuotientTwice(ne - se, nw - sw, k, h);
    QuotientTwice(ne - nw, se - sw, h, k);
    SwapQuotients(ne - se - (nw - sw), h, k);
    hide Quotient;
  }

  /** A field that is the central-difference curl of a potential with these corner values has no
      divergence. */
  lemma CurlHasNoDivergence(p: Params, w: State, e: State, s: State, n: State, ne: real, nw: real, se: real, sw: real)
    requires e.bX == Quotient(ne - se, 2.0 * Dy(p)) && w.bX == Quotient(nw - sw, 2.0 * Dy(p))
    requires n.bY == -Quotient(ne - nw, 2.0 * Dx(p)) && s.bY == -Quotient(se - sw, 2.0 * Dx(p))
    ensures DivB(p, w, e, s, n) == 0.0
  {
    CrossDifferences(ne, nw, se, sw, 2.0 * Dx(p), 2.0 * Dy(p));
    QuotientOdd(Quotient(ne - nw, 2.0 * Dx(p)) - Quotient(se - sw, 2.0 * Dx(p)), 2.0 * Dy(p));
    hide Quotient;
  }

  /** A field that is the central-difference gradient of one has no current. */
  lemma GradientHasNoCurrent(p: Params, w: State, e: State, s: State, n: State, ne: real, nw: real, se: real, sw: real)
    requires e.bY == Quotient(ne - se, 2.0 * Dy(p)) && w.bY == Quotient(nw - sw, 2.0 * Dy(p))
    requires n.bX == Quotient(ne - nw, 2.0 * Dx(p)) && s.bX == Quotient(se - sw, 2.0 * Dx(p))
    ensures CurrentZ(p, w, e, s, n) == 0.0
  {
    CrossDifferences(ne, nw, se, sw, 2.0 * Dx(p), 2.0 * Dy(p));
    hide Quotient;
  }

  lemma QuotientOfProduct(a: real, h: real)
    requires h != 0.0
    ensures Quotient(a * h, h) == a
  {
  }

  /** On the linear field bX = a x + b y, bY = c x + d y around (x, y) both are exact. */
  lemma LinearFieldExact(p: Params, w: State, e: State, s: State, n: State,
                         a: real, b: real, c: real, d: real, x: real, y: real)
    requires e.bX == a * (x + Dx(p)) + b * y && w.bX == a * (x - Dx(p)) + b * y
    requires e.bY == c * (x + Dx(p)) + d * y && w.bY == c * (x - Dx(p)) + d * y
    requires n.bX == a * x + b * (y + Dy(p)) && s.bX == a * x + b * (y - Dy(p))
    requires n.bY == c * x + d * (y + Dy(p)) && s.bY == c * x + d * (y - Dy(p))
    ensures DivB(p, w, e, s, n) == a + d && CurrentZ(p, w, e, s, n) == c - b
  {
    var h, k := 2.0 * Dx(p), 2.0 * Dy(p);
    assert e.bX - w.bX == a * h && e.bY - w.bY == c * h;
    assert n.bX - s.bX == b * k && n.bY - s.bY == d * k;
    QuotientOfProduct(a, h);
    QuotientOfProduct(c, h);
    QuotientOfProduct(b, k);
    QuotientOfProduct(d, k);
    hide Quotient;
  }

  // ----- What each cell contributes -----

  /** Twice the kinetic part times the density is the squared momentum; twice the magnetic part is
      the squared field; the internal part is the pressure over gamma - 1. */
  lemma EnergyParts(p: Params, c: State, w: State, e: State, s: State, n: State)
    requires Admissible(p, c)
    ensures Summand(p, Density, c, w, e, s, n) == c.rho
    ensures 2.0 * Times(c.rho, Summand(p, Kinetic, c, w, e, s, n)) == SumSquares(c.mX, c.mY, c.mZ)
    ensures 2.0 * Summand(p, Magnetic, c, w, e, s, n) == SumSquares(c.bX, c.bY, c.bZ)
    ensures Times(p.gamma - 1.0, Summand(p, Internal, c, w, e, s, n)) == Summand(p, Pressure, c, w, e, s, n)
    ensures Summand(p, Pressure, c, w, e, s, n)
         == Times(p.gamma - 1.0, c.e - Summand(p, Kinetic, c, w, e, s, n) - Summand(p, Magnetic, c, w, e, s, n))
  {
    var prim := ToPrimitive(p, c);
    KineticMomentum(c.rho, prim.vX, prim.vY, prim.vZ, c.mX, c.mY, c.mZ);
    InternalPressure(p.gamma, prim.p);
    PressureOf(p.gamma, c.e, c.rho, SumSquares(prim.vX, prim.vY, prim.vZ), SumSquares(c.bX, c.bY, c.bZ));
    hide SumSquares;
    hide Velocity;
    hide ThermalPressure;
    hide Times;
  }

  lemma KineticMomentum(rho: real, vx: real, vy: real, vz: real, mx: real, my: real, mz: real)
    requires 0.0 < rho && vx == Velocity(mx, rho) && vy == Velocity(my, rho) && vz == Velocity(mz, rho)
    ensures 2.0 * Times(rho, 0.5 * rho * SumSquares(vx, vy, vz)) == SumSquares(mx, my, mz)
  {
    MomentumVelocity(mx, rho);
    MomentumVelocity(my, rho);
    MomentumVelocity(mz, rho);
    SquareOut(rho, vx);
    SquareOut(rho, vy);
    SquareOut(rho, vz);
    assert rho * (rho * SumSquares(vx, vy, vz))
        == rho * (rho * (vx * vx)) + rho * (rho * (vy * vy)) + rho * (rho * (vz * vz));
  }

  lemma SquareOut(rho: real, v: real)
    ensures rho * (rho * (v * v)) == Momentum(rho, v) * Momentum(rho, v)
  {
  }

  lemma InternalPressure(gamma: real, x: real)
    requires 1.0 < gamma
    ensures Times(gamma - 1.0, x / (gamma - 1.0)) == x
  {
  }

  lemma PressureOf(gamma: real, e: real, rho: real, v2: real, b2: real)
    ensures ThermalPressure(gamma, e, rho, v2, b2) == Times(gamma - 1.0, e - 0.5 * rho * v2 - 0.5 * b2)
  {
  }

  /** The squared quantities are the squares of what the maxima are taken of, and the flow speed is
      the length of the velocity. */
  lemma ExtremesAndSquares(p: Params, c: State, w: State, e: State, s: State, n: State)
    ensures var j, d := Candidate(p, Current, c, w, e, s, n), Candidate(p, FieldDivergence, c, w, e, s, n);
            && 0.0 <= j && Times(j, j) == Summand(p, CurrentSquared, c, w, e, s, n)
            && 0.0 <= d && Times(d, d) == Summand(p, DivergenceSquared, c, w, e, s, n)
    ensures SquareRoot(p) ==>
              var v, prim := Candidate(p, FlowSpeed, c, w, e, s, n), ToPrimitive(p, c);
              0.0 <= v && Times(v, v) == SumSquares(prim.vX, prim.vY, prim.vZ)
  {
    var prim := ToPrimitive(p, c);
    SquareOfAbs(CurrentZ(p, w, e, s, n));
    SquareOfAbs(DivB(p, w, e, s, n));
    SquaresSum(prim.vX, prim.vY, prim.vZ);
    hide ToPrimitive;
    hide CurrentZ;
    hide DivB;
    hide SumSquares;
  }

  lemma SquareOfAbs(x: real)
    ensures Times(Abs(x), Abs(x)) == Times(x, x)
  {
  }

  lemma SquaresSum(x: real, y: real, z: real)
    ensures 0.0 <= SumSquares(x, y, z)
  {
    assert 0.0 <= x * x && 0.0 <= y * y && 0.0 <= z * z;
  }

  // ----- Fields from a potential -----

  /** The potential at (i, j), the grid repeating. */
  function PotentialAt(p: Params, a: (int, int) -> real, i: int, j: int): real
    requires -p.nx <= i < 2 * p.nx && -p.ny <= j < 2 * p.ny
  {
    a(Wrap(i, p.nx), Wrap(j, p.ny))
  }

  function SlopeX(p: Params, a: (int, int) -> real, i: int, j: int): real
    requires 0 <= i < p.nx && 0 <= j < p.ny
  {
    Quotient(PotentialAt(p, a, i + 1, j) - PotentialAt(p, a, i - 1, j), 2.0 * Dx(p))
  }

  function SlopeY(p: Params, a: (int, int) -> real, i: int, j: int): real
    requires 0 <= i < p.nx && 0 <= j < p.ny
  {
    Quotient(PotentialAt(p, a, i, j + 1) - PotentialAt(p, a, i, j - 1), 2.0 * Dy(p))
  }

  ghost predicate IsCurl(p: Params, g: Grid, a: (int, int) -> real)
    requires Shape(g, p.nx, p.ny)
  {
    forall i, j :: 0 <= i < p.nx && 0 <= j < p.ny ==>
      g[j][i].bX == SlopeY(p, a, i, j) && g[j][i].bY == -SlopeX(p, a, i, j)
  }

  ghost predicate IsGradient(p: Params, g: Grid, a: (int, int) -> real)
    requires Shape(g, p.nx, p.ny)
  {
    forall i, j :: 0 <= i < p.nx && 0 <= j < p.ny ==>
      g[j][i].bX == SlopeX(p, a, i, j) && g[j][i].bY == SlopeY(p, a, i, j)
  }

  lemma WrapTwice(k: int, d: int, n: int)
    requires 2 <= n && -1 <= k <= n && -1 <= d <= 1
    ensures Wrap(Wrap(k, n) + d, n) == Wrap(k + d, n)
  {
  }

  /** The field's neighbours of a cell, in terms of the potential at the cell's corners. */
  lemma Corners(p: Params, a: (int, int) -> real, i: int, j: int)
    requires 0 <= i < p.nx && 0 <= j < p.ny
    ensures var ne, nw := PotentialAt(p, a, i + 1, j + 1), PotentialAt(p, a, i - 1, j + 1);
            var se, sw := PotentialAt(p, a, i + 1, j - 1), PotentialAt(p, a, i - 1, j - 1);
            && SlopeY(p, a, Wrap(i + 1, p.nx), j) == Quotient(ne - se, 2.0 * Dy(p))
            && SlopeY(p, a, Wrap(i - 1, p.nx), j) == Quotient(nw - sw, 2.0 * Dy(p))
            && SlopeX(p, a, i, Wrap(j + 1, p.ny)) == Quotient(ne - nw, 2.0 * Dx(p))
            && SlopeX(p, a, i, Wrap(j - 1, p.ny)) == Quotient(se - sw, 2.0 * Dx(p))
  {
    WrapTwice(i + 1, 0, p.nx);
    WrapTwice(i - 1, 0, p.nx);
    WrapTwice(j + 1, 0, p.ny);
    WrapTwice(j - 1, 0, p.ny);
    hide Quotient;
  }

  lemma NeighboursAt(p: Params, g: Grid, i: int, j: int)
    requires Shape(g, p.nx, p.ny) && 0 <= i < p.nx && 0 <= j < p.ny
    ensures At(p, g, i - 1, j) == g[j][Wrap(i - 1, p.nx)] && At(p, g, i + 1, j) == g[j][Wrap(i + 1, p.nx)]
    ensures At(p, g, i, j - 1) == g[Wrap(j - 1, p.ny)][i] && At(p, g, i, j + 1) == g[Wrap(j + 1, p.ny)][i]
  {
  }

  lemma {:induction false} CurlCell(p: Params, g: Grid, a: (int, int) -> real, i: int, j: int)
    requires Shape(g, p.nx, p.ny) && IsCurl(p, g, a) && 0 <= i < p.nx && 0 <= j < p.ny
    ensures DivB(p, At(p, g, i - 1, j), At(p, g, i + 1, j), At(p, g, i, j - 1), At(p, g, i, j + 1)) == 0.0
  {
    hide SlopeX;
    hide SlopeY;
    hide PotentialAt;
    hide DivB;
    hide At;
    Corners(p, a, i, j);
    NeighboursAt(p, g, i, j);
    CurlHasNoDivergence(p, At(p, g, i - 1, j), At(p, g, i + 1, j), At(p, g, i, j - 1), At(p, g, i, j + 1),
                        PotentialAt(p, a, i + 1, j + 1), PotentialAt(p, a, i - 1, j + 1),
                        PotentialAt(p, a, i + 1, j - 1), PotentialAt(p, a, i - 1, j - 1));
  }

  lemma GradientCell(p: Params, g: Grid, a: (int, int) -> real, i: int, j: int)
    requires Shape(g, p.nx, p.ny) && IsGradient(p, g, a) && 0 <= i < p.nx && 0 <= j < p.ny
    ensures CurrentZ(p, At(p, g, i - 1, j), At(p, g, i + 1, j), At(p, g, i, j - 1), At(p, g, i, j + 1)) == 0.0
  {
    hide SlopeX;
    hide SlopeY;
    hide PotentialAt;
    hide CurrentZ;
    hide At;
    Corners(p, a, i, j);
    NeighboursAt(p, g, i, j);
    GradientHasNoCurrent(p, At(p, g, i - 1, j), At(p, g, i + 1, j), At(p, g, i, j - 1), At(p, g, i, j + 1),
                         PotentialAt(p, a, i + 1, j + 1), PotentialAt(p, a, i - 1, j + 1),
                         PotentialAt(p, a, i + 1, j - 1), PotentialAt(p, a, i - 1, j - 1));
  }

  // ----- Means and maxima -----

  /** `x` is the sum of the squares of what `m` is the largest of. */
  ghost predicate SquaresOf(p: Params, e: (int, int) -> real, c: (int, int) -> real) {
    forall i, j :: 0 <= i < p.nx && 0 <= j < p.ny ==> 0.0 <= c(i, j) && e(i, j) == Times(c(i, j), c(i, j))
  }

  /** The number of cells. */
  function Cells(p: Params): (n: real)
    ensures 0.0 < n
  {
    PositiveCells(p);
    (p.nx * p.ny) as real
  }

  lemma MeanTimesCells(p: Params, x: real)
    ensures Times(Cells(p), Mean(p, x)) == x
  {
    PositiveCells(p);
    var n := (p.nx * p.ny) as real;
    assert (1.0 / n) * n == 1.0;
    assert n * (x * (1.0 / n)) == x * ((1.0 / n) * n);
  }

  lemma CellsTimes(p: Params, c: real)
    ensures Times(p.ny as real, Times(p.nx as real, c)) == Times(Cells(p), c)
  {
    assert (p.nx * p.ny) as real == (p.nx as real) * (p.ny as real);
  }

  /** A root mean square is at most the maximum, and a maximum at most the root of the sum. */
  lemma RmsBounds(p: Params, e: (int, int) -> real, c: (int, int) -> real)
    requires SquareRoot(p) && SquaresOf(p, e, c)
    ensures var rms, m := p.sqrt(Mean(p, GridSum(p.nx, p.ny, e))), GridLargest(p.nx, p.ny, c, 0.0);
            0.0 <= rms <= m && Times(m, m) <= Times(Cells(p), Times(rms, rms))
  {
    var x, m := GridSum(p.nx, p.ny, e), GridLargest(p.nx, p.ny, c, 0.0);
    SumOfSquares(p, e, c);
    MeanTimesCells(p, x);
    hide GridSum;
    hide GridLargest;
    hide Mean;
    MeanBounds(Cells(p), Mean(p, x), x, m);
    RootBelow(p, Mean(p, x), m);
  }

  lemma SumOfSquares(p: Params, e: (int, int) -> real, c: (int, int) -> real)
    requires SquaresOf(p, e, c)
    ensures var x, m := GridSum(p.nx, p.ny, e), GridLargest(p.nx, p.ny, c, 0.0);
            0.0 <= m && 0.0 <= Times(m, m) <= x <= Times(Cells(p), Times(m, m))
  {
    var m := GridLargest(p.nx, p.ny, c, 0.0);
    GridLargestIs(p.nx, p.ny, c, 0.0);
    var top := (i, j) => Times(m, m);
    forall i, j | 0 <= i < p.nx && 0 <= j < p.ny ensures 0.0 <= e(i, j) <= top(i, j) {
      SquaresIncrease(c(i, j), m);
    }
    GridSumMonotone(p.nx, p.ny, e, top);
    GridSumConstant(p.nx, p.ny, Times(m, m), top);
    CellsTimes(p, Times(m, m));
    hide GridSum;
    hide GridLargest;
    GridSumAtLeast(p.nx, p.ny, e, 0, 0);
    SquaresIncrease(0.0, m);
    if m != 0.0 {
      var i, j :| 0 <= i < p.nx && 0 <= j < p.ny && c(i, j) == m;
      GridSumAtLeast(p.nx, p.ny, e, i, j);
    }
    hide Times;
  }

  lemma SquaresIncrease(a: real, b: real)
    requires 0.0 <= a <= b
    ensures 0.0 <= Times(a, a) <= Times(b, b) && Times(0.0, 0.0) == 0.0
  {
    NonNegativeProduct(a, a);
    NonNegativeProduct(b - a, b + a);
  }

  lemma MeanBounds(n: real, mean: real, x: real, m: real)
    requires 0.0 < n && Times(n, mean) == x && 0.0 <= x <= Times(n, Times(m, m))
    ensures 0.0 <= mean <= Times(m, m)
  {
    if mean < 0.0 { NegativeProduct(n, mean); }
    if Times(m, m) < mean { NegativeProduct(n, Times(m, m) - mean); }
  }

  lemma NegativeProduct(a: real, b: real)
    requires 0.0 < a && b < 0.0
    ensures a * b < 0.0
  {
  }

  lemma RootBelow(p: Params, x: real, m: real)
    requires SquareRoot(p) && 0.0 <= x <= Times(m, m) && 0.0 <= m
    ensures 0.0 <= p.sqrt(x) <= m && Times(p.sqrt(x), p.sqrt(x)) == x
  {
    var q := p.sqrt(x);
    assert q * q == x;
    if m < q { RootsOrdered(m, q); }
  }

  // ----- The report -----

  /** Both root mean squares of the report are at most its maxima, and those at most the root of the
      sum of squares. */
  lemma ReportedRmsBounds(p: Params, g: Grid)
    requires SquareRoot(p) && Shape(g, p.nx, p.ny)
    ensures var r := GridReport(p, g);
            && 0.0 <= r.currentRms <= r.currentAbsMax
            && Times(r.currentAbsMax, r.currentAbsMax) <= Times(Cells(p), Times(r.currentRms, r.currentRms))
            && 0.0 <= r.divbL2 <= r.divbAbsMax
            && Times(r.divbAbsMax, r.divbAbsMax) <= Times(Cells(p), Times(r.divbL2, r.divbL2))
  {
    hide Summand;
    hide Candidate;
    hide At;
    forall i, j | 0 <= i < p.nx && 0 <= j < p.ny
      ensures var c, e := GridCandidate(p, g, Current)(i, j), GridSummand(p, g, CurrentSquared)(i, j);
              0.0 <= c && e == Times(c, c)
      ensures var c, e := GridCandidate(p, g, FieldDivergence)(i, j), GridSummand(p, g, DivergenceSquared)(i, j);
              0.0 <= c && e == Times(c, c)
    {
      ExtremesAndSquares(p, At(p, g, i, j), At(p, g, i - 1, j), At(p, g, i + 1, j),
                         At(p, g, i, j - 1), At(p, g, i, j + 1));
    }
    hide GridSummand;
    hide GridCandidate;
    hide GridSum;
    hide GridLargest;
    hide Mean;
    hide Times;
    RmsBounds(p, GridSummand(p, g, CurrentSquared), GridCandidate(p, g, Current));
    RmsBounds(p, GridSummand(p, g, DivergenceSquared), GridCandidate(p, g, FieldDivergence));
  }

  lemma NothingLargest(p: Params, e: (int, int) -> real)
    requires forall i, j :: 0 <= i < p.nx && 0 <= j < p.ny ==> e(i, j) == 0.0
    ensures GridLargest(p.nx, p.ny, e, 0.0) == 0.0
  {
    GridLargestIs(p.nx, p.ny, e, 0.0);
    hide GridLargest;
  }

  /** A field that is the curl of a potential is reported free of divergence. */
  lemma CurlReportsNoDivergence(p: Params, g: Grid, a: (int, int) -> real)
    requires SquareRoot(p) && Shape(g, p.nx, p.ny) && IsCurl(p, g, a)
    ensures var r := GridReport(p, g);
            r.divbAbsMax == 0.0 && r.divbL2 == 0.0
  {
    hide DivB;
    hide At;
    hide IsCurl;
    forall i, j | 0 <= i < p.nx && 0 <= j < p.ny ensures GridCandidate(p, g, FieldDivergence)(i, j) == 0.0 {
      CurlCell(p, g, a, i, j);
    }
    hide GridCandidate;
    NothingLargest(p, GridCandidate(p, g, FieldDivergence));
    ReportedRmsBounds(p, g);
    hide GridLargest;
    hide Mean;
  }

  /** A field that is a gradient is reported free of current. */
  lemma GradientReportsNoCurrent(p: Params, g: Grid, a: (int, int) -> real)
    requires SquareRoot(p) && Shape(g, p.nx, p.ny) && IsGradient(p, g, a)
    ensures var r := GridReport(p, g);
            r.currentAbsMax == 0.0 && r.currentRms == 0.0
  {
    hide CurrentZ;
    hide At;
    hide IsGradient;
    forall i, j | 0 <= i < p.nx && 0 <= j < p.ny ensures GridCandidate(p, g, Current)(i, j) == 0.0 {
      GradientCell(p, g, a, i, j);
    }
    hide GridCandidate;
    NothingLargest(p, GridCandidate(p, g, Current));
    ReportedRmsBounds(p, g);
    hide GridLargest;
    hide Mean;
  }

  /** The area of the domain. */
  function Area(p: Params): real {
    Times(p.xMax - p.xMin, p.yMax - p.yMin)
  }

  /** The cells' areas add up to the domain's. */
  lemma CellsFillArea(p: Params, c: real)
    ensures Times(CellArea(p), Times(Cells(p), c)) == Times(Area(p), c)
  {
    CellsTileDomain(p);
    FillScalar(Dx(p), Dy(p), p.nx as real, p.ny as real, p.xMax - p.xMin, p.yMax - p.yMin, c);
    PositiveCells(p);
    assert (p.nx * p.ny) as real == (p.nx as real) * (p.ny as real);
    hide Dx;
    hide Dy;
  }

  lemma FillScalar(dx: real, dy: real, m: real, n: real, w: real, h: real, c: real)
    requires m * dx == w && n * dy == h
    ensures Times(Times(dx, dy), Times(m * n, c)) == Times(Times(w, h), c)
  {
    assert (dx * dy) * ((m * n) * c) == ((m * dx) * (n * dy)) * c;
  }

  /** On a uniform grid the integrals are the cell's value times the area of the domain, the mean is
      the cell's, and nothing varies. */
  lemma UniformSums(p: Params, g: Grid, c: State, q: Quantity, x: Extreme)
    requires Uniform(p, g, c)
    ensures Times(CellArea(p), GridEnergy(p, g, q)) == Times(Area(p), Summand(p, q, c, c, c, c, c))
    ensures Mean(p, GridEnergy(p, g, q)) == Summand(p, q, c, c, c, c, c)
    ensures GridLargest(p.nx, p.ny, GridCandidate(p, g, x), 0.0) == Max(0.0, Candidate(p, x, c, c, c, c, c))
  {
    hide Summand;
    hide Candidate;
    var s, m := Summand(p, q, c, c, c, c, c), Candidate(p, x, c, c, c, c, c);
    var e, f := GridSummand(p, g, q), GridCandidate(p, g, x);
    forall i, j | 0 <= i < p.nx && 0 <= j < p.ny ensures e(i, j) == s && f(i, j) == m {
    }
    hide GridSummand;
    hide GridCandidate;
    GridSumConstant(p.nx, p.ny, s, e);
    CellsTimes(p, s);
    CellsFillArea(p, s);
    MeanTimesCells(p, GridEnergy(p, g, q));
    SameFactor(Cells(p), Mean(p, GridEnergy(p, g, q)), s);
    GridLargestIs(p.nx, p.ny, f, 0.0);
    hide GridLargest;
    hide GridSum;
    hide Times;
    hide Mean;
    assert f(0, 0) == m;
  }

  lemma SameFactor(n: real, a: real, b: real)
    requires 0.0 < n
    ensures Times(n, a) == Times(n, b) ==> a == b
  {
    if a < b { NegativeProduct(n, a - b); }
    if b < a { NegativeProduct(n, b - a); }
  }

  lemma FlatDifferences(p: Params, c: State)
    ensures CurrentZ(p, c, c, c, c) == 0.0 && DivB(p, c, c, c, c) == 0.0
  {
    QuotientAdds(0.0, 0.0, 2.0 * Dx(p));
    QuotientAdds(0.0, 0.0, 2.0 * Dy(p));
    hide Quotient;
  }

  /** The report of a uniform admissible fluid: mass and energies are its densities times the area of
      the domain, the pressure is its own, and current and divergence vanish. */
  lemma UniformReport(p: Params, g: Grid, c: State)
    requires SquareRoot(p) && Uniform(p, g, c) && Admissible(p, c)
    ensures var r, prim := GridReport(p, g), ToPrimitive(p, c);
            && r.mass == Times(Area(p), c.rho) && r.totalEnergy == Times(Area(p), c.e)
            && 2.0 * Times(c.rho, r.kineticEnergy) == Times(Area(p), SumSquares(c.mX, c.mY, c.mZ))
            && 2.0 * r.magneticEnergy == Times(Area(p), SumSquares(c.bX, c.bY, c.bZ))
            && Times(p.gamma - 1.0, r.internalEnergy) == Times(Area(p), r.meanPressure)
            && r.meanPressure == prim.p
            && Times(r.maxSpeed, r.maxSpeed) == SumSquares(prim.vX, prim.vY, prim.vZ) && 0.0 <= r.maxSpeed
            && r.currentAbsMax == r.currentRms == r.divbAbsMax == r.divbL2 == 0.0
  {
    assert Shape(g, p.nx, p.ny);
    hide Uniform;
    hide Admissible;
    hide Mean;
    hide GridEnergy;
    hide GridLargest;
    hide CellArea;
    hide Area;
    UniformSums(p, g, c, Density, FlowSpeed);
    UniformSums(p, g, c, Kinetic, Current);
    UniformSums(p, g, c, Magnetic, FieldDivergence);
    UniformSums(p, g, c, Internal, FlowSpeed);
    UniformSums(p, g, c, EnergyTotal, FlowSpeed);
    UniformSums(p, g, c, Pressure, FlowSpeed);
    EnergyParts(p, c, c, c, c, c);
    ExtremesAndSquares(p, c, c, c, c, c);
    FlatDifferences(p, c);
    hide CurrentZ;
    hide DivB;
    hide ToPrimitive;
    hide SumSquares;
    ReportedRmsBounds(p, g);
    var k, m := Summand(p, Kinetic, c, c, c, c, c), Summand(p, Magnetic, c, c, c, c, c);
    var t := Summand(p, Internal, c, c, c, c, c);
    Regroup(c.rho, Area(p), k);
    Regroup(p.gamma - 1.0, Area(p), t);
    Doubled(Area(p), Times(c.rho, k));
    Doubled(Area(p), m);
    hide Times;
  }

  lemma Regroup(a: real, b: real, x: real)
    ensures Times(a, Times(b, x)) == Times(b, Times(a, x))
  {
  }

  lemma Doubled(a: real, x: real)
    ensures 2.0 * Times(a, x) == Times(a, 2.0 * x)
  {
  }

  // ----- What the scheme conserves, as reported -----

  /** The summed energy is the conserved total, and so is the summed density of cells above the floor. */
  lemma SumsAreTotals(p: Params, g: Grid)
    requires Shape(g, p.nx, p.ny)
    ensures GridEnergy(p, g, EnergyTotal) == Total(p, g, 7)
    ensures AboveFloor(p, g) ==> GridEnergy(p, g, Density) == Total(p, g, 0)
  {
    hide ToPrimitive;
    forall i, j | 0 <= i < p.nx && 0 <= j < p.ny
      ensures GridSummand(p, g, EnergyTotal)(i, j) == Value(g, 7)(i, j)
      ensures GridSummand(p, g, Density)(i, j) == Max(Value(g, 0)(i, j), p.rhoFloor)
    {
      PrimitiveDensity(p, g[j][i]);
    }
    hide GridSummand;
    GridSumExt(p.nx, p.ny, GridSummand(p, g, EnergyTotal), Value(g, 7));
    if AboveFloor(p, g) {
      GridSumExt(p.nx, p.ny, GridSummand(p, g, Density), Value(g, 0));
    }
    hide GridSum;
  }

  lemma PrimitiveDensity(p: Params, s: State)
    ensures ToPrimitive(p, s).rho == Max(s.rho, p.rhoFloor)
  {
  }

  lemma {:induction false} RunAboveFloor(p: Params, dts: seq<real>, g: Grid)
    requires AboveFloor(p, g)
    ensures AboveFloor(p, Run(p, dts, g))
    decreases |dts|
  {
    hide Advance;
    if dts != [] {
      AdvanceAboveFloor(p, dts[0], g);
      RunAboveFloor(p, dts[1..], Advance(p, dts[0], g));
    }
  }

  lemma Proportional(k: real, a: real, b: real)
    requires 0.0 < k
    ensures a <= b <==> Times(k, a) <= Times(k, b)
    ensures a == b <==> Times(k, a) == Times(k, b)
  {
    if a < b { NegativeProduct(k, a - b); }
    if b < a { NegativeProduct(k, b - a); }
  }

  /** Over any run the reported mass and total energy never drop, and both stay exactly the same if
      and only if no floor fires in any step. */
  lemma ReportedConservation(p: Params, dts: seq<real>, g: Grid)
    requires AboveFloor(p, g)
    ensures var r, r' := GridReport(p, g), GridReport(p, Run(p, dts, g));
            && r.mass <= r'.mass && r.totalEnergy <= r'.totalEnergy
            && (r.mass == r'.mass && r.totalEnergy == r'.totalEnergy <==> NoFloorEverFires(p, dts, g))
  {
    hide Run;
    hide NoFloorEverFires;
    hide GridEnergy;
    hide Total;
    hide AboveFloor;
    assert Shape(g, p.nx, p.ny) by { FloorShape(p, g); }
    var h := Run(p, dts, g);
    RunTotals(p, dts, g);
    RunAboveFloor(p, dts, g);
    SumsAreTotals(p, g);
    SumsAreTotals(p, h);
    PositiveProduct(Dx(p), Dy(p));
    Proportional(CellArea(p), Total(p, g, 0), Total(p, h, 0));
    Proportional(CellArea(p), Total(p, g, 7), Total(p, h, 7));
    hide Times;
    hide Mean;
    hide CellArea;
  }

  lemma FloorShape(p: Params, g: Grid)
    requires AboveFloor(p, g)
    ensures Shape(g, p.nx, p.ny)
  {
  }
}
