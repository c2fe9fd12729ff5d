/** Mirror symmetry of whole runs: with a positive pressure floor, neither end of an axis is preferred. */
module Reflection {
  import opened States
  import opened Physics
  import opened FaceLemmas
  import opened FluxLaws
  import opened PeriodicGrid
  import opened Symmetry

  // ----- Cells -----

  lemma RegularizeReflects(p: Params, s: State)
    ensures Regularize(p, Reflect(s, X)) == Reflect(Regularize(p, s), X)
  {
    var w := ToPrimitive(p, s);
    PrimitiveReflects(p, s, X);
    SumSquaresEven(w.vX, w.vY, w.vZ);
    SumSquaresEven(w.bX, w.bY, w.bZ);
    MomentumOdd(Max(w.rho, p.rhoFloor), w.vX);
    hide ToPrimitive;
    hide SumSquares;
    hide Momentum;
    hide TotalEnergy;
  }

  lemma MomentumOdd(rho: real, v: real)
    ensures Momentum(rho, -v) == -Momentum(rho, v)
  {
  }

  lemma MinmodOdd(a: real, b: real)
    ensures Minmod(-a, -b) == -Minmod(a, b) && Minmod(-b, -a) == -Minmod(a, b)
  {
    MinmodCommutes(a, b);
    MinmodCommutes(-a, -b);
    assert (-a) * (-b) == a * b;
  }

  lemma HalvesOdd(x: real)
    ensures Times(0.5, -x) == -Times(0.5, x)
  {
  }

  function Correction(x: real, y: real, z: real): real {
    Times(0.5, Minmod(y - x, z - y))
  }

  /** One variable's slope, seen from the other side, without and with a change of sign. */
  lemma SlopeBackwards(x: real, y: real, z: real)
    ensures Times(0.5, Minmod(y - z, x - y)) == -Correction(x, y, z)
    ensures Times(0.5, Minmod((-y) - (-z), (-x) - (-y))) == Correction(x, y, z)
  {
    MinmodOdd(y - x, z - y);
    MinmodCommutes(y - x, z - y);
    HalvesOdd(Minmod(y - x, z - y));
    hide Minmod;
    hide Times;
  }

  lemma SlopesBackwards(x: State, y: State, z: State)
    ensures Scale(0.5, Slope(Reflect(z, X), Reflect(y, X), Reflect(x, X)))
         == Negate(Reflect(Scale(0.5, Slope(x, y, z)), X))
  {
    SlopeBackwards(x.rho, y.rho, z.rho);
    SlopeBackwards(x.mX, y.mX, z.mX);
    SlopeBackwards(x.mY, y.mY, z.mY);
    SlopeBackwards(x.mZ, y.mZ, z.mZ);
    SlopeBackwards(x.bX, y.bX, z.bX);
    SlopeBackwards(x.bY, y.bY, z.bY);
    SlopeBackwards(x.bZ, y.bZ, z.bZ);
    SlopeBackwards(x.e, y.e, z.e);
    SlopeBackwards(x.psi, y.psi, z.psi);
    hide Minmod;
    hide Times;
  }

  /** Seen in the mirror, the two sides of a face change places. */
  lemma FaceStatesReflect(second: bool, ll: State, l: State, r: State, rr: State)
    ensures FaceLeft(second, Reflect(rr, X), Reflect(r, X), Reflect(l, X)) == Reflect(FaceRight(second, l, r, rr), X)
    ensures FaceRight(second, Reflect(r, X), Reflect(l, X), Reflect(ll, X)) == Reflect(FaceLeft(second, ll, l, r), X)
  {
    SlopesBackwards(l, r, rr);
    SlopesBackwards(ll, l, r);
    hide Slope;
    hide Scale;
  }

  /** What both solvers need to have no preferred side. */
  ghost predicate Even(p: Params) {
    SquareRoot(p) && 0.0 < p.pFloor
  }

  lemma FaceReflects(p: Params, second: bool, ll: State, l: State, r: State, rr: State)
    requires Even(p)
    ensures FaceFlux(p, second, X, Reflect(rr, X), Reflect(r, X), Reflect(l, X), Reflect(ll, X))
         == Negate(Reflect(FaceFlux(p, second, X, ll, l, r, rr), X))
  {
    hide FaceLeft;
    hide FaceRight;
    hide Regularize;
    hide RiemannFlux;
    FaceStatesReflect(second, ll, l, r, rr);
    var a, b := FaceLeft(second, ll, l, r), FaceRight(second, l, r, rr);
    RegularizeReflects(p, a);
    RegularizeReflects(p, b);
    PressureFloorReflects(p, Regularize(p, a), Regularize(p, b), X);
  }

  // ----- Faces along the mirror -----

  lemma TermsOdd(m: real, v: real, b: real, c: real, w: real)
    ensures Tension(-m, v, b, -c) == -Tension(m, v, b, c)
    ensures Induction(v, -c, -w, b) == -Induction(v, c, w, b)
  {
  }

  lemma FluxAlong(p: Params, s: State)
    ensures Flux(p, Reflect(s, X), Y) == Reflect(Flux(p, s, Y), X)
  {
    var w := ToPrimitive(p, s);
    PrimitiveReflects(p, s, X);
    DotEven(w, X);
    SumSquaresEven(w.bX, w.bY, w.bZ);
    TermsOdd(s.mX, w.vY, w.bY, w.bX, w.vX);
    hide ToPrimitive;
    hide SumSquares;
    hide Dot;
    hide Tension;
    hide NormalStress;
    hide Induction;
    hide EnergyFlux;
    hide CleaningFlux;
  }

  lemma SpeedsAlong(p: Params, s: State)
    ensures var w, w' := ToPrimitive(p, s), ToPrimitive(p, Reflect(s, X));
            && NormalVelocity(w', Y) == NormalVelocity(w, Y) && FastMagnetosonic(p, w', Y) == FastMagnetosonic(p, w, Y)
            && SignalSpeed(p, Reflect(s, X), Y) == SignalSpeed(p, s, Y)
  {
    var w := ToPrimitive(p, s);
    PrimitiveReflects(p, s, X);
    SumSquaresEven(w.bX, w.bY, w.bZ);
    hide ToPrimitive;
    hide SumSquares;
    hide FastSpeed;
  }

  lemma SolversOdd(a: real, sl: real, sr: real, fl: real, fr: real, ul: real, ur: real)
    ensures RusanovFlux(a, -fl, -fr, -ul, -ur) == -RusanovFlux(a, fl, fr, ul, ur)
    ensures sl < sr ==> HllFlux(sl, sr, -fl, -fr, -ul, -ur) == -HllFlux(sl, sr, fl, fr, ul, ur)
  {
    if sl < sr {
      assert sr * (-fl) - sl * (-fr) + sl * sr * ((-ur) - (-ul)) == -(sr * fl - sl * fr + sl * sr * (ur - ul));
    }
  }

  /** Across a face along the mirror both solvers reflect without exception. */
  lemma RiemannAlong(p: Params, l: State, r: State)
    ensures RiemannFlux(p, Reflect(l, X), Reflect(r, X), Y) == Reflect(RiemannFlux(p, l, r, Y), X)
  {
    FluxAlong(p, l);
    FluxAlong(p, r);
    SpeedsAlong(p, l);
    SpeedsAlong(p, r);
    var fl, fr := Flux(p, l, Y), Flux(p, r, Y);
    var a := Max(SignalSpeed(p, l, Y), SignalSpeed(p, r, Y));
    var sl, sr := SlowestWave(p, l, r, Y), FastestWave(p, l, r, Y);
    SolversOdd(a, sl, sr, fl.mX, fr.mX, l.mX, r.mX);
    SolversOdd(a, sl, sr, fl.bX, fr.bX, l.bX, r.bX);
    hide Flux;
    hide ToPrimitive;
    hide FastMagnetosonic;
    hide SignalSpeed;
    hide RusanovFlux;
    hide HllFlux;
  }

  lemma FaceStatesAlong(second: bool, ll: State, l: State, r: State, rr: State)
    ensures FaceLeft(second, Reflect(ll, X), Reflect(l, X), Reflect(r, X)) == Reflect(FaceLeft(second, ll, l, r), X)
    ensures FaceRight(second, Reflect(l, X), Reflect(r, X), Reflect(rr, X)) == Reflect(FaceRight(second, l, r, rr), X)
  {
    MinmodOdd(l.mX - ll.mX, r.mX - l.mX);
    MinmodOdd(l.bX - ll.bX, r.bX - l.bX);
    MinmodOdd(r.mX - l.mX, rr.mX - r.mX);
    MinmodOdd(r.bX - l.bX, rr.bX - r.bX);
    hide Minmod;
    HalvesOdd(Minmod(l.mX - ll.mX, r.mX - l.mX));
    HalvesOdd(Minmod(l.bX - ll.bX, r.bX - l.bX));
    HalvesOdd(Minmod(r.mX - l.mX, rr.mX - r.mX));
    HalvesOdd(Minmod(r.bX - l.bX, rr.bX - r.bX));
    hide Times;
  }

  lemma FaceAlong(p: Params, second: bool, ll: State, l: State, r: State, rr: State)
    ensures FaceFlux(p, second, Y, Reflect(ll, X), Reflect(l, X), Reflect(r, X), Reflect(rr, X))
         == Reflect(FaceFlux(p, second, Y, ll, l, r, rr), X)
  {
    hide FaceLeft;
    hide FaceRight;
    hide Regularize;
    hide RiemannFlux;
    FaceStatesAlong(second, ll, l, r, rr);
    var a, b := FaceLeft(second, ll, l, r), FaceRight(second, l, r, rr);
    RegularizeReflects(p, a);
    RegularizeReflects(p, b);
    RiemannAlong(p, Regularize(p, a), Regularize(p, b));
  }

  // ----- Grids -----

  /** The grid seen in a mirror across the x axis: columns in reverse, normal components negated. */
  function ReflectX(g: Grid, nx: nat, ny: nat): (r: Grid)
    requires Shape(g, nx, ny)
    ensures Shape(r, nx, ny)
    ensures forall i, j :: 0 <= i < nx && 0 <= j < ny ==> r[j][i] == Reflect(g[j][nx - 1 - i], X)
  {
    seq(ny, j requires 0 <= j < ny => seq(nx, i requires 0 <= i < nx => Reflect(g[j][nx - 1 - i], X)))
  }

  /** The same across the y axis: rows in reverse. */
  function ReflectY(g: Grid, nx: nat, ny: nat): (r: Grid)
    requires Shape(g, nx, ny)
    ensures Shape(r, nx, ny)
    ensures forall i, j :: 0 <= i < nx && 0 <= j < ny ==> r[j][i] == Reflect(g[ny - 1 - j][i], Y)
  {
    seq(ny, j requires 0 <= j < ny => seq(nx, i requires 0 <= i < nx => Reflect(g[ny - 1 - j][i], Y)))
  }

  lemma AtReflects(p: Params, g: Grid, i: int, j: int)
    requires Shape(g, p.nx, p.ny) && -p.nx <= i < 2 * p.nx && -p.ny <= j < 2 * p.ny
    ensures At(p, ReflectX(g, p.nx, p.ny), i, j) == Reflect(At(p, g, p.nx - 1 - i, j), X)
  {
    hide Reflect;
  }

  lemma NetFluxOdd(xw: real, xe: real, ys: real, yn: real, dx: real, dy: real)
    requires dx != 0.0 && dy != 0.0
    ensures NetFlux(-xe, -xw, ys, yn, dx, dy) == NetFlux(xw, xe, ys, yn, dx, dy)
    ensures NetFlux(xe, xw, -ys, -yn, dx, dy) == -NetFlux(xw, xe, ys, yn, dx, dy)
  {
    QuotientAdds(yn - ys, ys - yn, dy);
    QuotientAdds(xe - xw, xw - xe, dx);
    QuotientAdds(0.0, 0.0, dx);
    hide Quotient;
  }

  lemma DivergenceReflects(p: Params, c: State, w: State, e: State, s: State, n: State)
    ensures Divergence(p, Reflect(c, X), Negate(Reflect(e, X)), Negate(Reflect(w, X)), Reflect(s, X), Reflect(n, X))
         == Reflect(Divergence(p, c, w, e, s, n), X)
  {
    var dx, dy := Dx(p), Dy(p);
    forall v | 0 <= v < NUM_VARS
      ensures NetFlux(-e.Get(v), -w.Get(v), s.Get(v), n.Get(v), dx, dy)
           == NetFlux(w.Get(v), e.Get(v), s.Get(v), n.Get(v), dx, dy)
      ensures NetFlux(e.Get(v), w.Get(v), -s.Get(v), -n.Get(v), dx, dy)
           == -NetFlux(w.Get(v), e.Get(v), s.Get(v), n.Get(v), dx, dy)
    {
      NetFluxOdd(w.Get(v), e.Get(v), s.Get(v), n.Get(v), dx, dy);
    }
    hide NetFlux;
    hide Times;
    var a := Divergence(p, Reflect(c, X), Negate(Reflect(e, X)), Negate(Reflect(w, X)), Reflect(s, X), Reflect(n, X));
    var b := Reflect(Divergence(p, c, w, e, s, n), X);
    forall v | 0 <= v < NUM_VARS ensures a.Get(v) == b.Get(v) {
    }
    SameState(a, b);
  }

  lemma RhsCellReflects(p: Params, second: bool, g: Grid, i: int, j: int)
    requires Even(p) && Shape(g, p.nx, p.ny) && 0 <= i < p.nx && 0 <= j < p.ny
    ensures RhsCell(p, second, ReflectX(g, p.nx, p.ny), i, j) == Reflect(RhsCell(p, second, g, p.nx - 1 - i, j), X)
  {
    hide Reflect;
    hide Negate;
    hide FaceFlux;
    hide Divergence;
    hide At;
    hide Even;
    var k := p.nx - 1 - i;
    var t := ReflectX(g, p.nx, p.ny);
    hide ReflectX;
    AtReflects(p, g, i - 2, j);
    AtReflects(p, g, i - 1, j);
    AtReflects(p, g, i, j);
    AtReflects(p, g, i + 1, j);
    AtReflects(p, g, i + 2, j);
    AtReflects(p, g, i, j - 2);
    AtReflects(p, g, i, j - 1);
    AtReflects(p, g, i, j + 1);
    AtReflects(p, g, i, j + 2);
    FaceReflects(p, second, At(p, g, k - 1, j), At(p, g, k, j), At(p, g, k + 1, j), At(p, g, k + 2, j));
    FaceReflects(p, second, At(p, g, k - 2, j), At(p, g, k - 1, j), At(p, g, k, j), At(p, g, k + 1, j));
    FaceAlong(p, second, At(p, g, k, j - 2), At(p, g, k, j - 1), At(p, g, k, j), At(p, g, k, j + 1));
    FaceAlong(p, second, At(p, g, k, j - 1), At(p, g, k, j), At(p, g, k, j + 1), At(p, g, k, j + 2));
    Here(p, g, k, j);
    Here(p, t, i, j);
    DivergenceReflects(p, g[j][k], WestFace(p, second, g, k, j), WestFace(p, second, g, k + 1, j),
                       SouthFace(p, second, g, k, j), SouthFace(p, second, g, k, j + 1));
  }

  lemma Here(p: Params, g: Grid, i: int, j: int)
    requires Shape(g, p.nx, p.ny) && 0 <= i < p.nx && 0 <= j < p.ny
    ensures At(p, g, i, j) == g[j][i]
  {
  }

  lemma RhsReflects(p: Params, second: bool, g: Grid)
    requires Even(p) && Shape(g, p.nx, p.ny)
    ensures Rhs(p, second, ReflectX(g, p.nx, p.ny)) == ReflectX(Rhs(p, second, g), p.nx, p.ny)
  {
    hide Reflect;
    var t := ReflectX(g, p.nx, p.ny);
    forall i, j | 0 <= i < p.nx && 0 <= j < p.ny
      ensures RhsCell(p, second, t, i, j) == Reflect(RhsCell(p, second, g, p.nx - 1 - i, j), X)
    {
      RhsCellReflects(p, second, g, i, j);
    }
    hide RhsCell;
    hide Even;
    SameGrid(Rhs(p, second, t), ReflectX(Rhs(p, second, g), p.nx, p.ny), p.nx, p.ny);
  }

  lemma UpdateReflects(dt: real, u: State, s: State, r: State)
    ensures Add(Reflect(u, X), Scale(dt, Reflect(r, X))) == Reflect(Add(u, Scale(dt, r)), X)
    ensures Average(dt, Reflect(u, X), Reflect(s, X), Reflect(r, X)) == Reflect(Average(dt, u, s, r), X)
  {
    TimesOdd(dt, r.mX);
    TimesOdd(dt, r.bX);
    TimesOdd(0.5, u.mX + s.mX + Times(dt, r.mX));
    TimesOdd(0.5, u.bX + s.bX + Times(dt, r.bX));
    hide Times;
  }

  lemma TimesOdd(c: real, x: real)
    ensures Times(c, -x) == -Times(c, x)
  {
  }

  lemma EulerReflects(p: Params, dt: real, u: Grid, r: Grid)
    requires Shape(u, p.nx, p.ny) && Shape(r, p.nx, p.ny)
    ensures Euler(p, dt, ReflectX(u, p.nx, p.ny), ReflectX(r, p.nx, p.ny)) == ReflectX(Euler(p, dt, u, r), p.nx, p.ny)
  {
    hide Reflect;
    hide Add;
    hide Scale;
    var a, b := ReflectX(u, p.nx, p.ny), ReflectX(r, p.nx, p.ny);
    forall i, j | 0 <= i < p.nx && 0 <= j < p.ny
      ensures Euler(p, dt, a, b)[j][i] == ReflectX(Euler(p, dt, u, r), p.nx, p.ny)[j][i]
    {
      var k := p.nx - 1 - i;
      UpdateReflects(dt, u[j][k], u[j][k], r[j][k]);
    }
    SameGrid(Euler(p, dt, a, b), ReflectX(Euler(p, dt, u, r), p.nx, p.ny), p.nx, p.ny);
  }

  lemma HeunReflects(p: Params, dt: real, u: Grid, s: Grid, r: Grid)
    requires Shape(u, p.nx, p.ny) && Shape(s, p.nx, p.ny) && Shape(r, p.nx, p.ny)
    ensures Heun(p, dt, ReflectX(u, p.nx, p.ny), ReflectX(s, p.nx, p.ny), ReflectX(r, p.nx, p.ny))
         == ReflectX(Heun(p, dt, u, s, r), p.nx, p.ny)
  {
    hide Reflect;
    hide Average;
    var a, b, c := ReflectX(u, p.nx, p.ny), ReflectX(s, p.nx, p.ny), ReflectX(r, p.nx, p.ny);
    forall i, j | 0 <= i < p.nx && 0 <= j < p.ny
      ensures Heun(p, dt, a, b, c)[j][i] == ReflectX(Heun(p, dt, u, s, r), p.nx, p.ny)[j][i]
    {
      var k := p.nx - 1 - i;
      UpdateReflects(dt, u[j][k], s[j][k], r[j][k]);
    }
    SameGrid(Heun(p, dt, a, b, c), ReflectX(Heun(p, dt, u, s, r), p.nx, p.ny), p.nx, p.ny);
  }

  lemma FloorsReflect(p: Params, u: Grid)
    requires Shape(u, p.nx, p.ny)
    ensures Floors(p, ReflectX(u, p.nx, p.ny)) == ReflectX(Floors(p, u), p.nx, p.ny)
  {
    hide Reflect;
    hide Regularize;
    var a := ReflectX(u, p.nx, p.ny);
    forall i, j | 0 <= i < p.nx && 0 <= j < p.ny
      ensures Floors(p, a)[j][i] == ReflectX(Floors(p, u), p.nx, p.ny)[j][i]
    {
      RegularizeReflects(p, u[j][p.nx - 1 - i]);
    }
    SameGrid(Floors(p, a), ReflectX(Floors(p, u), p.nx, p.ny), p.nx, p.ny);
  }

  /** Reflecting the grid across the x axis commutes with a step. */
  lemma AdvanceReflectsX(p: Params, dt: real, g: Grid)
    requires Even(p) && Shape(g, p.nx, p.ny)
    ensures Advance(p, dt, ReflectX(g, p.nx, p.ny)) == ReflectX(Advance(p, dt, g), p.nx, p.ny)
  {
    hide Rhs;
    hide Euler;
    hide Heun;
    hide Floors;
    hide ReflectX;
    hide Even;
    var second := p.reconstruction == MUSCL;
    var r := Rhs(p, second, g);
    RhsReflects(p, second, g);
    EulerReflects(p, dt, g, r);
    FloorsReflect(p, Euler(p, dt, g, r));
    if second {
      var s := Floors(p, Euler(p, dt, g, r));
      RhsReflects(p, true, s);
      HeunReflects(p, dt, g, s, Rhs(p, true, s));
      FloorsReflect(p, Heun(p, dt, g, s, Rhs(p, true, s)));
    }
  }

  /** Reflecting across the x axis commutes with any run. */
  lemma {:induction false} RunReflectsX(p: Params, dts: seq<real>, g: Grid)
    requires Even(p) && Shape(g, p.nx, p.ny)
    ensures Run(p, dts, ReflectX(g, p.nx, p.ny)) == ReflectX(Run(p, dts, g), p.nx, p.ny)
    decreases |dts|
  {
    hide Advance;
    hide ReflectX;
    hide Even;
    if dts != [] {
      AdvanceReflectsX(p, dts[0], g);
      RunReflectsX(p, dts[1..], Advance(p, dts[0], g));
    }
  }

  /** Reflecting across the y axis is reflecting the transposed grid across the x axis. */
  lemma ReflectYTransposed(g: Grid, nx: nat, ny: nat)
    requires Shape(g, nx, ny)
    ensures Transpose(ReflectX(Transpose(g, nx, ny), ny, nx), ny, nx) == ReflectY(g, nx, ny)
  {
    SameGrid(Transpose(ReflectX(Transpose(g, nx, ny), ny, nx), ny, nx), ReflectY(g, nx, ny), nx, ny);
  }

  /** Reflecting across the y axis commutes with any run, by the symmetry of the two axes. */
  lemma RunReflectsY(p: Params, dts: seq<real>, g: Grid)
    requires Even(p) && Shape(g, p.nx, p.ny)
    ensures Run(p, dts, ReflectY(g, p.nx, p.ny)) == ReflectY(Run(p, dts, g), p.nx, p.ny)
  {
    hide Run;
    hide Transpose;
    hide ReflectX;
    hide ReflectY;
    var q: Params := Transposed(p);
    assert Transposed(q) == p && Even(q);
    hide Even;
    var t := Transpose(g, p.nx, p.ny);
    RunTransposes(p, dts, g);
    RunReflectsX(q, dts, t);
    RunTransposes(q, dts, ReflectX(t, p.ny, p.nx));
    ReflectYTransposed(g, p.nx, p.ny);
    ReflectYTransposed(Run(p, dts, g), p.nx, p.ny);
  }
}
