/** What a time step, and a whole run, does to the grid totals. */
module Conservation {
  import opened States
  import opened Physics
  import opened PeriodicGrid
  import opened Sums

  /** Variable `v` of cell (i, j), as a total function. */
  function Value(g: Grid, v: int): (int, int) -> real {
    (i, j) => if 0 <= j < |g| && 0 <= i < |g[j]| then g[j][i].Get(v) else 0.0
  }

  function Total(p: Params, g: Grid, v: int): real {
    GridSum(p.nx, p.ny, Value(g, v))
  }

  lemma DivergenceBalances(p: Params, c: State, w: State, e: State, s: State, n: State, v: int)
    requires 0 <= v < NUM_VARS
    ensures Divergence(p, c, w, e, s, n).Get(v)
         == Balance(w.Get(v), e.Get(v), s.Get(v), n.Get(v), c.Get(v), Dx(p), Dy(p),
                    if v == PSI then p.glmDamping else 0.0)
  {
    assert Times(-p.glmDamping, c.psi) == -Times(p.glmDamping, c.psi);
    TimesAdds(0.0, c.Get(v), 0.0);
    hide Times;
    hide NetFlux;
  }

  /** The fluxes through opposite edges of the grid agree. */
  lemma EdgesAgree(p: Params, second: bool, g: Grid)
    requires Shape(g, p.nx, p.ny)
    ensures forall j :: 0 <= j < p.ny ==> WestFace(p, second, g, 0, j) == WestFace(p, second, g, p.nx, j)
    ensures forall i :: 0 <= i < p.nx ==> SouthFace(p, second, g, i, 0) == SouthFace(p, second, g, i, p.ny)
  {
    hide FaceFlux;
  }

  /** What is left of a right-hand side summed over the grid: the damping of psi. */
  function Damping(p: Params, g: Grid, v: int): real {
    if v == PSI then -Times(p.glmDamping, Total(p, g, PSI)) else 0.0
  }

  /** The discrete divergence telescopes: summed over the grid, the right-hand side is zero in
      every variable but psi, where only the damping is left. */
  lemma RhsTotal(p: Params, second: bool, g: Grid, v: int)
    requires Shape(g, p.nx, p.ny) && 0 <= v < NUM_VARS
    ensures Total(p, Rhs(p, second, g), v) == Damping(p, g, v)
  {
    hide Balances;
    hide EdgesMatch;
    hide Times;
    hide WestValue;
    hide SouthValue;
    hide Rhs;
    hide GridSum;
    RhsBalances(p, second, g, v);
    EdgeValuesMatch(p, second, g, v);
    DivergenceTelescopes(p.nx, p.ny, WestValue(p, second, g, v), SouthValue(p, second, g, v), Value(g, v),
                         Value(Rhs(p, second, g), v), Dx(p), Dy(p), if v == PSI then p.glmDamping else 0.0);
    TimesAdds(0.0, Total(p, g, v), 0.0);
  }

  lemma EdgeValuesMatch(p: Params, second: bool, g: Grid, v: int)
    requires Shape(g, p.nx, p.ny)
    ensures EdgesMatch(p.nx, p.ny, WestValue(p, second, g, v), SouthValue(p, second, g, v))
  {
    hide WestFace;
    hide SouthFace;
    hide State.Get;
    EdgesAgree(p, second, g);
  }

  function WestValue(p: Params, second: bool, g: Grid, v: int): (int, int) -> real
    requires Shape(g, p.nx, p.ny)
  {
    (i, j) => if 0 <= i <= p.nx && 0 <= j < p.ny then WestFace(p, second, g, i, j).Get(v) else 0.0
  }

  function SouthValue(p: Params, second: bool, g: Grid, v: int): (int, int) -> real
    requires Shape(g, p.nx, p.ny)
  {
    (i, j) => if 0 <= i < p.nx && 0 <= j <= p.ny then SouthFace(p, second, g, i, j).Get(v) else 0.0
  }

  lemma RhsBalances(p: Params, second: bool, g: Grid, v: int)
    requires Shape(g, p.nx, p.ny) && 0 <= v < NUM_VARS
    ensures Balances(p.nx, p.ny, WestValue(p, second, g, v), SouthValue(p, second, g, v), Value(g, v),
                     Value(Rhs(p, second, g), v), Dx(p), Dy(p), if v == PSI then p.glmDamping else 0.0)
  {
    hide Divergence;
    hide FaceFlux;
    hide Balance;
    hide State.Get;
    forall i, j | 0 <= i < p.nx && 0 <= j < p.ny
      ensures Value(Rhs(p, second, g), v)(i, j) == CellBalance(p, second, g, v, i, j)
    {
      DivergenceBalances(p, g[j][i], WestFace(p, second, g, i, j), WestFace(p, second, g, i + 1, j),
                         SouthFace(p, second, g, i, j), SouthFace(p, second, g, i, j + 1), v);
    }
  }

  function CellBalance(p: Params, second: bool, g: Grid, v: int, i: int, j: int): real
    requires Shape(g, p.nx, p.ny)
  {
    var x, y := WestValue(p, second, g, v), SouthValue(p, second, g, v);
    Balance(x(i, j), x(i + 1, j), y(i, j), y(i, j + 1), Value(g, v)(i, j), Dx(p), Dy(p),
            if v == PSI then p.glmDamping else 0.0)
  }

  function Shifted(e: (int, int) -> real, i0: int, j0: int): (int, int) -> real {
    (i, j) => e(i0 + i, j0 + j)
  }

  lemma ShiftedBalances(nx: nat, ny: nat, x: (int, int) -> real, y: (int, int) -> real, c: (int, int) -> real,
                        e: (int, int) -> real, dx: real, dy: real, k: real, i0: nat, j0: nat, m: nat, n: nat)
    requires dx != 0.0 && dy != 0.0 && Balances(nx, ny, x, y, c, e, dx, dy, k) && i0 + m <= nx && j0 + n <= ny
    ensures Balances(m, n, Shifted(x, i0, j0), Shifted(y, i0, j0), Shifted(c, i0, j0), Shifted(e, i0, j0), dx, dy, k)
  {
    hide Balance;
    forall i, j | 0 <= i < m && 0 <= j < n
      ensures Shifted(e, i0, j0)(i, j) ==
                Balance(Shifted(x, i0, j0)(i, j), Shifted(x, i0, j0)(i + 1, j), Shifted(y, i0, j0)(i, j),
                        Shifted(y, i0, j0)(i, j + 1), Shifted(c, i0, j0)(i, j), dx, dy, k)
    {
      var a, b := i0 + i, j0 + j;
      assert e(a, b) == Balance(x(a, b), x(a + 1, b), y(a, b), y(a, b + 1), c(a, b), dx, dy, k);
      assert i0 + (i + 1) == a + 1 && j0 + (j + 1) == b + 1;
    }
  }

  /** The scheme conserves locally: in any rectangle of cells, the right-hand side sums to what enters
      through its four sides per cell width, less the damping of psi inside. */
  lemma RectangleKeeps(p: Params, second: bool, g: Grid, v: int, i0: nat, j0: nat, m: nat, n: nat)
    requires Shape(g, p.nx, p.ny) && 0 <= v < NUM_VARS && i0 + m <= p.nx && j0 + n <= p.ny
    ensures var x, y := Shifted(WestValue(p, second, g, v), i0, j0), Shifted(SouthValue(p, second, g, v), i0, j0);
            GridSum(m, n, Shifted(Value(Rhs(p, second, g), v), i0, j0))
            == Quotient(ColumnSum(n, x, 0) - ColumnSum(n, x, m), Dx(p))
               + Quotient(RowSum(m, y, 0) - RowSum(m, y, n), Dy(p))
               - (if v == PSI then Times(p.glmDamping, GridSum(m, n, Shifted(Value(g, v), i0, j0))) else 0.0)
  {
    hide Balance;
    hide Balances;
    hide WestValue;
    hide SouthValue;
    hide Value;
    hide Rhs;
    hide Shifted;
    hide GridSum;
    hide ColumnSum;
    hide RowSum;
    hide Quotient;
    hide Times;
    var k := if v == PSI then p.glmDamping else 0.0;
    var x, y := WestValue(p, second, g, v), SouthValue(p, second, g, v);
    var c, e := Value(g, v), Value(Rhs(p, second, g), v);
    RhsBalances(p, second, g, v);
    ShiftedBalances(p.nx, p.ny, x, y, c, e, Dx(p), Dy(p), k, i0, j0, m, n);
    var x', y', c' := Shifted(x, i0, j0), Shifted(y, i0, j0), Shifted(c, i0, j0);
    RectangleBalance(m, n, x', y', c', Shifted(e, i0, j0), Dx(p), Dy(p), k);
    Inflow(ColumnSum(n, x', 0), ColumnSum(n, x', m), RowSum(m, y', 0), RowSum(m, y', n), GridSum(m, n, c'),
           Dx(p), Dy(p), k);
  }

  lemma Inflow(xw: real, xe: real, ys: real, yn: real, c: real, dx: real, dy: real, k: real)
    requires dx != 0.0 && dy != 0.0
    ensures Balance(xw, xe, ys, yn, c, dx, dy, k) == Quotient(xw - xe, dx) + Quotient(ys - yn, dy) - Times(k, c)
    ensures k == 0.0 ==> Times(k, c) == 0.0
  {
    QuotientAdds(xw - xe, xe - xw, dx);
    QuotientAdds(ys - yn, yn - ys, dy);
    TimesAdds(0.0, c, 0.0);
    hide Quotient;
    hide Times;
  }

  /** The factor one step applies to the sum of psi. */
  function PsiFactor(p: Params, dt: real): real {
    var q := 1.0 - dt * p.glmDamping;
    match p.reconstruction
    case FirstOrder => q
    case MUSCL => 0.5 * (1.0 + q * q)
  }

  lemma EulerValue(dt: real, u: State, r: State, v: int)
    ensures Add(u, Scale(dt, r)).Get(v) == u.Get(v) + Times(dt, r.Get(v))
  {
  }

  lemma HeunValue(dt: real, u: State, s: State, r: State, v: int)
    ensures Average(dt, u, s, r).Get(v) == Times(0.5, u.Get(v) + s.Get(v) + Times(dt, r.Get(v)))
  {
  }

  lemma EulerTotal(p: Params, dt: real, u: Grid, r: Grid, v: int)
    requires Shape(u, p.nx, p.ny) && Shape(r, p.nx, p.ny) && 0 <= v < NUM_VARS
    ensures Total(p, Euler(p, dt, u, r), v) == Total(p, u, v) + Times(dt, Total(p, r, v))
  {
    hide Times;
    hide State.Get;
    hide Add;
    hide Scale;
    var e, f := Value(u, v), Value(r, v);
    var scaled := (i, j) => Times(dt, f(i, j));
    var h := Value(Euler(p, dt, u, r), v);
    forall i, j | 0 <= i < p.nx && 0 <= j < p.ny ensures h(i, j) == e(i, j) + scaled(i, j) {
      EulerValue(dt, u[j][i], r[j][i], v);
    }
    GridSumScale(p.nx, p.ny, dt, f, scaled);
    GridSumAdd(p.nx, p.ny, e, scaled, h);
  }

  lemma HeunTotal(p: Params, dt: real, u: Grid, s: Grid, r: Grid, v: int)
    requires Shape(u, p.nx, p.ny) && Shape(s, p.nx, p.ny) && Shape(r, p.nx, p.ny) && 0 <= v < NUM_VARS
    ensures Total(p, Heun(p, dt, u, s, r), v)
         == Times(0.5, Total(p, u, v) + Total(p, s, v) + Times(dt, Total(p, r, v)))
  {
    hide Times;
    hide State.Get;
    hide Average;
    var a, b, c := Value(u, v), Value(s, v), Value(r, v);
    var inner := (i, j) => a(i, j) + b(i, j);
    var scaled := (i, j) => Times(dt, c(i, j));
    var whole := (i, j) => inner(i, j) + scaled(i, j);
    var h := Value(Heun(p, dt, u, s, r), v);
    forall i, j | 0 <= i < p.nx && 0 <= j < p.ny ensures h(i, j) == Times(0.5, whole(i, j)) {
      HeunValue(dt, u[j][i], s[j][i], r[j][i], v);
    }
    GridSumAdd(p.nx, p.ny, a, b, inner);
    GridSumScale(p.nx, p.ny, dt, c, scaled);
    GridSumAdd(p.nx, p.ny, inner, scaled, whole);
    GridSumScale(p.nx, p.ny, 0.5, whole, h);
  }

  ghost predicate AllAdmissible(p: Params, g: Grid)
    requires Shape(g, p.nx, p.ny)
  {
    forall i, j :: 0 <= i < p.nx && 0 <= j < p.ny ==> Admissible(p, g[j][i])
  }

  /** Flooring only adds mass and energy, and adds none exactly when every cell is admissible. */
  lemma FloorsTotal(p: Params, g: Grid)
    requires Shape(g, p.nx, p.ny)
    ensures forall v :: 1 <= v <= 6 || v == PSI ==> Total(p, Floors(p, g), v) == Total(p, g, v)
    ensures Total(p, g, 0) <= Total(p, Floors(p, g), 0) && Total(p, g, 7) <= Total(p, Floors(p, g), 7)
    ensures Total(p, g, 0) == Total(p, Floors(p, g), 0) && Total(p, g, 7) == Total(p, Floors(p, g), 7)
       <==> AllAdmissible(p, g)
  {
    var f := Floors(p, g);
    forall i, j | 0 <= i < p.nx && 0 <= j < p.ny
      ensures f[j][i] == g[j][i] <==> Admissible(p, g[j][i])
      ensures f[j][i] == g[j][i].(rho := f[j][i].rho, e := f[j][i].e)
      ensures g[j][i].rho <= f[j][i].rho && g[j][i].e <= f[j][i].e
    {
      RegularizeProjects(p, g[j][i]);
      RegularizeFixesExactlyAdmissible(p, g[j][i]);
    }
    hide Regularize;
    hide Admissible;
    forall v | 1 <= v <= 6 || v == PSI ensures Total(p, f, v) == Total(p, g, v) {
      GridSumExt(p.nx, p.ny, Value(f, v), Value(g, v));
    }
    var r, r', e, e' := Value(g, 0), Value(f, 0), Value(g, 7), Value(f, 7);
    GridSumMonotone(p.nx, p.ny, r, r');
    GridSumMonotone(p.nx, p.ny, e, e');
    if Total(p, g, 0) == Total(p, f, 0) && Total(p, g, 7) == Total(p, f, 7) {
      forall i, j | 0 <= i < p.nx && 0 <= j < p.ny ensures Admissible(p, g[j][i]) {
        assert r(i, j) == r'(i, j) && e(i, j) == e'(i, j);
      }
    }
    if AllAdmissible(p, g) {
      SameGrid(f, g, p.nx, p.ny);
    }
  }

  /** No cell is floored anywhere in the step. */
  ghost predicate NoFloorFires(p: Params, dt: real, g: Grid)
    requires Shape(g, p.nx, p.ny)
  {
    && (p.reconstruction == MUSCL ==> AllAdmissible(p, Euler(p, dt, g, Rhs(p, true, g))))
    && AllAdmissible(p, Unfloored(p, dt, g))
  }

  /** Momentum and field totals are the same, and there is no less mass and energy. */
  ghost predicate Conserves(p: Params, g: Grid, h: Grid) {
    && (forall v :: 1 <= v <= 6 ==> Total(p, h, v) == Total(p, g, v))
    && Total(p, g, 0) <= Total(p, h, 0) && Total(p, g, 7) <= Total(p, h, 7)
  }

  ghost predicate KeepsMassAndEnergy(p: Params, g: Grid, h: Grid) {
    Total(p, g, 0) == Total(p, h, 0) && Total(p, g, 7) == Total(p, h, 7)
  }

  /** One step conserves momentum and field, never loses mass or energy, damps psi by a known
      factor, and keeps mass and energy exactly when no floor fires. */
  lemma StepTotals(p: Params, dt: real, g: Grid)
    requires Shape(g, p.nx, p.ny)
    ensures var h := Advance(p, dt, g);
            && Conserves(p, g, h)
            && (KeepsMassAndEnergy(p, g, h) <==> NoFloorFires(p, dt, g))
            && Total(p, h, PSI) == Times(PsiFactor(p, dt), Total(p, g, PSI))
  {
    hide Rhs;
    hide Euler;
    hide Heun;
    hide Floors;
    hide Total;
    hide AllAdmissible;
    hide Times;
    hide PsiFactor;
    hide Damped;
    FloorsTotal(p, Unfloored(p, dt, g));
    PsiDamping(p, dt, Total(p, g, PSI));
    match p.reconstruction
    case FirstOrder =>
      EulerTotals(p, dt, false, g);
    case MUSCL =>
      EulerTotals(p, dt, true, g);
      FloorsTotal(p, Euler(p, dt, g, Rhs(p, true, g)));
      HeunTotals(p, dt, g, Stage(p, dt, g));
  }

  lemma EulerTotals(p: Params, dt: real, second: bool, g: Grid)
    requires Shape(g, p.nx, p.ny)
    ensures var e := Euler(p, dt, g, Rhs(p, second, g));
            && (forall v :: 0 <= v < PSI ==> Total(p, e, v) == Total(p, g, v))
            && Total(p, e, PSI) == Damped(dt, p.glmDamping, Total(p, g, PSI))
  {
    hide Total;
    hide Times;
    forall v | 0 <= v < NUM_VARS
      ensures Total(p, Euler(p, dt, g, Rhs(p, second, g)), v) == Total(p, g, v) + Times(dt, Damping(p, g, v))
    {
      RhsTotal(p, second, g, v);
      EulerTotal(p, dt, g, Rhs(p, second, g), v);
    }
    TimesAdds(dt, 0.0, 0.0);
  }

  lemma HeunTotals(p: Params, dt: real, g: Grid, s: Grid)
    requires Shape(g, p.nx, p.ny) && Shape(s, p.nx, p.ny)
    ensures var w := Heun(p, dt, g, s, Rhs(p, true, s));
            && (forall v :: 0 <= v < PSI ==> Total(p, w, v) == 0.5 * (Total(p, g, v) + Total(p, s, v)))
            && Total(p, w, PSI) == 0.5 * (Total(p, g, PSI) + Damped(dt, p.glmDamping, Total(p, s, PSI)))
  {
    hide Total;
    forall v | 0 <= v < NUM_VARS
      ensures Total(p, Heun(p, dt, g, s, Rhs(p, true, s)), v)
           == Times(0.5, Total(p, g, v) + Total(p, s, v) + Times(dt, Damping(p, s, v)))
    {
      RhsTotal(p, true, s, v);
      HeunTotal(p, dt, g, s, Rhs(p, true, s), v);
    }
    TimesAdds(dt, 0.0, 0.0);
  }

  function Damped(dt: real, k: real, x: real): real {
    x + Times(dt, -Times(k, x))
  }

  lemma PsiDamping(p: Params, dt: real, x: real)
    ensures p.reconstruction == FirstOrder ==> Damped(dt, p.glmDamping, x) == Times(PsiFactor(p, dt), x)
    ensures p.reconstruction == MUSCL ==>
              0.5 * (x + Damped(dt, p.glmDamping, Damped(dt, p.glmDamping, x))) == Times(PsiFactor(p, dt), x)
  {
    var k := p.glmDamping;
    var q := 1.0 - dt * k;
    var s := Damped(dt, k, x);
    assert s == q * x;
    assert Damped(dt, k, s) == q * s;
    assert q * s == (q * q) * x;
  }

  // ----- Whole runs -----

  function PsiFactors(p: Params, dts: seq<real>): real {
    if dts == [] then 1.0 else Times(PsiFactors(p, dts[1..]), PsiFactor(p, dts[0]))
  }

  ghost predicate NoFloorEverFires(p: Params, dts: seq<real>, g: Grid)
    requires Shape(g, p.nx, p.ny)
    decreases |dts|
  {
    dts == [] || (NoFloorFires(p, dts[0], g) && NoFloorEverFires(p, dts[1..], Advance(p, dts[0], g)))
  }

  /** Over any run: momentum and field totals never change, mass and energy never drop and are
      kept exactly when no floor fires in any step, and psi is damped by the product of factors. */
  lemma {:induction false} RunTotals(p: Params, dts: seq<real>, g: Grid)
    requires Shape(g, p.nx, p.ny)
    ensures var h := Run(p, dts, g);
            && Conserves(p, g, h)
            && (KeepsMassAndEnergy(p, g, h) <==> NoFloorEverFires(p, dts, g))
            && Total(p, h, PSI) == Times(PsiFactors(p, dts), Total(p, g, PSI))
    decreases |dts|
  {
    hide Total;
    hide Advance;
    hide NoFloorFires;
    hide PsiFactor;
    if dts != [] {
      StepTotals(p, dts[0], g);
      RunTotals(p, dts[1..], Advance(p, dts[0], g));
      TimesAssociates(PsiFactors(p, dts[1..]), PsiFactor(p, dts[0]), Total(p, g, PSI));
      hide Times;
    }
  }

  lemma TimesAssociates(a: real, b: real, x: real)
    ensures Times(a, Times(b, x)) == Times(Times(a, b), x)
  {
  }
}
