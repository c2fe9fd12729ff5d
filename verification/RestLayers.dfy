/** A fluid at rest in horizontal layers: its fluxes are pure diffusion of mass. The layers that show
    which rows a second-order step depends on. */
module RestLayers {
  import opened States
  import opened Physics
  import opened FaceLemmas
  import opened PeriodicGrid
  import opened Positivity

  // ----- Fluid at rest -----

  /** The lighter density, and the pressure. */
  function Base(p: Params): (d: real)
    ensures 1.0 <= d && p.rhoFloor <= d
  {
    p.rhoFloor + 1.0
  }

  function Pressure(p: Params): (x: real)
    ensures 0.0 < x && p.pFloor <= x
  {
    p.pFloor + 1.0
  }

  /** The energy that goes with it. */
  function Energy(p: Params): real {
    Quotient(Pressure(p), p.gamma - 1.0)
  }

  /** A cell at rest, without field, at that pressure. */
  function Rest(p: Params, rho: real): State {
    ZERO.(rho := rho, e := Energy(p))
  }

  function RestPrimitive(p: Params, rho: real): Primitive {
    Primitive(rho, 0.0, 0.0, 0.0, 0.0, 0.0, 0.0, Pressure(p), 0.0)
  }

  lemma NothingMoves(rho: real)
    requires 1.0 <= rho
    ensures SumSquares(0.0, 0.0, 0.0) == 0.0 && Velocity(0.0, rho) == 0.0 && Momentum(rho, 0.0) == 0.0
  {
  }

  lemma PressureEnergy(gamma: real, x: real, rho: real)
    requires 1.0 < gamma
    ensures ThermalPressure(gamma, Quotient(x, gamma - 1.0), rho, 0.0, 0.0) == x
    ensures TotalEnergy(gamma, x, rho, 0.0, 0.0) == Quotient(x, gamma - 1.0)
  {
    var g := gamma - 1.0;
    assert g * (x / g) == x;
    assert 0.5 * rho * 0.0 == 0.0;
  }

  lemma RestEnergy(p: Params, rho: real)
    ensures ThermalPressure(p.gamma, Energy(p), rho, 0.0, 0.0) == Pressure(p)
    ensures TotalEnergy(p.gamma, Pressure(p), rho, 0.0, 0.0) == Energy(p)
  {
    hide ThermalPressure;
    hide TotalEnergy;
    hide Quotient;
    PressureEnergy(p.gamma, Pressure(p), rho);
  }

  lemma ZeroTerms(z: real, x: real, e: real, ch: real, w: Primitive)
    requires z == 0.0
    ensures x + 0.5 * SumSquares(z, z, z) == x
    ensures Tension(z, z, z, z) == z && NormalStress(z, z, x, z) == x
    ensures Induction(z, z, z, z) == z && CleaningFlux(ch, z) == z && EnergyFlux(e, x, z, z, z) == z
    ensures w.vX == w.vY == w.vZ == z ==> Dot(w) == z
  {
  }

  lemma FluxOfZeros(p: Params, s: State, w: Primitive, x: real, z: real)
    requires ToPrimitive(p, s) == w && w.vX == w.vY == w.vZ == w.bX == w.bY == w.bZ == w.psi == z && w.p == x
    requires s.mX == s.mY == s.mZ == z == 0.0
    ensures Flux(p, s, Y) == State(z, z, x, z, z, z, z, z, z)
  {
    ZeroTerms(z, x, s.e, p.glmCh, w);
    hide ToPrimitive;
    hide SumSquares;
    hide Dot;
    hide Tension;
    hide NormalStress;
    hide Induction;
    hide EnergyFlux;
    hide CleaningFlux;
  }

  lemma RestConversions(p: Params, rho: real)
    requires Base(p) <= rho
    ensures ToPrimitive(p, Rest(p, rho)) == RestPrimitive(p, rho)
    ensures ToConserved(p, RestPrimitive(p, rho)) == Rest(p, rho)
  {
    hide SumSquares;
    hide Velocity;
    hide Momentum;
    hide ThermalPressure;
    hide TotalEnergy;
    hide Energy;
    hide Pressure;
    NothingMoves(rho);
    RestEnergy(p, rho);
  }

  lemma RestCell(p: Params, rho: real)
    requires Base(p) <= rho
    ensures ToPrimitive(p, Rest(p, rho)) == RestPrimitive(p, rho)
    ensures Regularize(p, Rest(p, rho)) == Rest(p, rho)
    ensures Flux(p, Rest(p, rho), Y) == ZERO.(mY := Pressure(p))
  {
    hide ToPrimitive;
    hide ToConserved;
    hide Flux;
    hide Energy;
    hide Pressure;
    RestConversions(p, rho);
    FluxOfZeros(p, Rest(p, rho), RestPrimitive(p, rho), Pressure(p), 0.0);
  }

  /** The speed of sound. */
  function Sound(p: Params, rho: real): real {
    FastMagnetosonic(p, RestPrimitive(p, rho), Y)
  }

  /** Without field the dispersion relation leaves one wave. */
  lemma OneWave(c: real, a2: real, b2: real, n2: real)
    requires IsFastWave(c, a2, b2, n2) && b2 == 0.0 && n2 == 0.0 && 0.0 < a2
    ensures c * c == a2
  {
    var x := c * c;
    assert x * x - a2 * x == (x - a2) * x;
    if x - a2 != 0.0 { assert (x - a2) * x != 0.0; }
  }

  lemma NoField(inv: real, z: real)
    requires z == 0.0
    ensures PerMass(SumSquares(z, z, z), inv) == z && PerMass(Times(z, z), inv) == z
  {
  }

  /** Its square is gamma p / rho. */
  lemma SoundSquared(p: Params, rho: real)
    requires SquareRoot(p) && 1.0 <= rho
    ensures var a2 := PerMass(p.gamma * Pressure(p), 1.0 / rho);
            0.0 < a2 && 0.0 <= Sound(p, rho) && Sound(p, rho) * Sound(p, rho) == a2
  {
    hide FastMagnetosonic;
    hide PerMass;
    hide SumSquares;
    hide Times;
    hide IsFastWave;
    hide Pressure;
    var w := RestPrimitive(p, rho);
    FastSpeedNonNegative(p, w, Y);
    FastSpeedSolvesDispersion(p, w, Y);
    NoField(1.0 / rho, 0.0);
    var x, inv := p.gamma * Pressure(p), 1.0 / rho;
    assert p.gamma * w.p == x && 1.0 / w.rho == inv;
    PositiveProduct(p.gamma, Pressure(p));
    PositiveQuotient(1.0, rho);
    PositivePerMass(x, inv);
    OneWave(FastMagnetosonic(p, w, Y), PerMass(x, inv), PerMass(SumSquares(w.bX, w.bY, w.bZ), inv),
            PerMass(Times(w.bY, w.bY), inv));
  }

  lemma PositivePerMass(x: real, inv: real)
    requires 0.0 < x && 0.0 < inv
    ensures 0.0 < PerMass(x, inv)
  {
  }

  lemma LessPerMass(x: real, rho: real, rho': real)
    requires 0.0 < x && 0.0 < rho <= rho'
    ensures PerMass(x, 1.0 / rho') <= PerMass(x, 1.0 / rho)
  {
    var y, y' := 1.0 / rho, 1.0 / rho';
    PositiveQuotient(1.0, rho');
    assert y' <= y by {
      assert y' * rho' == 1.0 && y * rho == 1.0;
      NonNegativeProduct(y', rho' - rho);
      assert y' * rho <= 1.0;
      CancelPositive(y', y, rho);
    }
    NonNegativeProduct(x, y - y');
  }

  /** Sound is slower in denser fluid, and never still. */
  lemma SoundFalls(p: Params, rho: real, rho': real)
    requires SquareRoot(p) && 1.0 <= rho <= rho'
    ensures 0.0 < Sound(p, rho') <= Sound(p, rho)
  {
    SoundSquared(p, rho);
    SoundSquared(p, rho');
    PositiveProduct(p.gamma, Pressure(p));
    LessPerMass(p.gamma * Pressure(p), rho, rho');
    hide Sound;
    hide PerMass;
    hide Pressure;
    SquaresOrdered(Sound(p, rho'), Sound(p, rho));
  }

  lemma SquaresOrdered(a: real, b: real)
    requires 0.0 <= a && 0.0 <= b && 0.0 < a * a <= b * b
    ensures 0.0 < a <= b
  {
    if b < a { RootsOrdered(b, a); }
  }

  // ----- The flux between cells at rest -----

  function LeftDensity(ll: real, l: real, r: real): real {
    l + 0.5 * Minmod(l - ll, r - l)
  }

  function RightDensity(l: real, r: real, rr: real): real {
    r - 0.5 * Minmod(r - l, rr - r)
  }

  /** The diffusive mass flux from `a` to `b`. */
  function Diffusion(p: Params, a: real, b: real): real {
    Times(0.5 * Max(Sound(p, a), Sound(p, b)), a - b)
  }

  /** Between states at rest HLL and Rusanov are the same. */
  lemma SolversMeetAtRest(c: real, f: real, ul: real, ur: real)
    requires 0.0 < c
    ensures HllFlux(-c, c, f, f, ul, ur) == RusanovFlux(c, f, f, ul, ur)
    ensures RusanovFlux(c, f, f, ul, ur) == f + Times(0.5 * c, ul - ur)
  {
    var inv := 1.0 / (c - (-c));
    assert inv * c == 0.5;
    assert c * f - (-c) * f + (-c) * c * (ur - ul) == c * (2.0 * f - c * (ur - ul));
    var y := 2.0 * f - c * (ur - ul);
    assert (c * y) * inv == (inv * c) * y;
  }

  lemma RestRiemann(p: Params, a: real, b: real)
    requires SquareRoot(p) && Base(p) <= a && Base(p) <= b
    ensures RiemannFlux(p, Rest(p, a), Rest(p, b), Y) == ZERO.(rho := Diffusion(p, a, b), mY := Pressure(p))
  {
    RestCell(p, a);
    RestCell(p, b);
    SoundFalls(p, a, a);
    SoundFalls(p, b, b);
    var l, r, c := Rest(p, a), Rest(p, b), Max(Sound(p, a), Sound(p, b));
    SolversMeetAtRest(c, 0.0, a, b);
    SolversMeetAtRest(c, Pressure(p), 0.0, 0.0);
    SolversMeetAtRest(c, 0.0, 0.0, 0.0);
    SolversMeetAtRest(c, 0.0, l.e, r.e);
    TimesAdds(0.5 * c, 0.0, 0.0);
    hide ToPrimitive;
    hide Flux;
    hide FastMagnetosonic;
    hide Pressure;
    hide Base;
    hide Quotient;
    hide RusanovFlux;
    hide HllFlux;
    hide Times;
  }

  lemma RestFace(p: Params, ll: real, l: real, r: real, rr: real)
    requires SquareRoot(p) && Base(p) <= l && Base(p) <= r
    ensures var a, b := LeftDensity(ll, l, r), RightDensity(l, r, rr);
            && Base(p) <= a && Base(p) <= b && (l <= r ==> a <= b) && (r <= l ==> b <= a)
            && FaceFlux(p, true, Y, Rest(p, ll), Rest(p, l), Rest(p, r), Rest(p, rr))
               == ZERO.(rho := Diffusion(p, a, b), mY := Pressure(p))
  {
    var a, b := LeftDensity(ll, l, r), RightDensity(l, r, rr);
    ReconstructionAddsNoExtrema(true, Rest(p, ll), Rest(p, l), Rest(p, r), Rest(p, rr), 0);
    assert Minmod(0.0, 0.0) == 0.0;
    hide Minmod;
    assert FaceLeft(true, Rest(p, ll), Rest(p, l), Rest(p, r)) == Rest(p, a);
    assert FaceRight(true, Rest(p, l), Rest(p, r), Rest(p, rr)) == Rest(p, b);
    hide Base;
    RestCell(p, a);
    RestCell(p, b);
    RestRiemann(p, a, b);
    hide LeftDensity;
    hide RightDensity;
    hide FaceLeft;
    hide FaceRight;
    hide Regularize;
    hide RiemannFlux;
    hide Diffusion;
    hide Rest;
  }

  /** The rate of change of a layer's density, from the five layers around. */
  function Rate(p: Params, a: real, b: real, c: real, d: real, e: real): real {
    Quotient(Diffusion(p, LeftDensity(a, b, c), RightDensity(b, c, d))
             - Diffusion(p, LeftDensity(b, c, d), RightDensity(c, d, e)), Dy(p))
  }

  lemma RestDivergence(p: Params, c: State, w: State, s: real, n: real)
    requires c.psi == 0.0
    ensures Divergence(p, c, w, w, ZERO.(rho := s, mY := Pressure(p)), ZERO.(rho := n, mY := Pressure(p)))
         == ZERO.(rho := Quotient(s - n, Dy(p)))
  {
    QuotientAdds(s - n, n - s, Dy(p));
    QuotientAdds(0.0, 0.0, Dx(p));
    TimesAdds(-p.glmDamping, 0.0, 0.0);
    hide Quotient;
    hide Times;
    hide Pressure;
  }

  lemma RestStencil(p: Params, w: State, a: real, b: real, c: real, d: real, e: real)
    requires SquareRoot(p) && Base(p) <= b && Base(p) <= c && Base(p) <= d
    ensures Divergence(p, Rest(p, c), w, w, FaceFlux(p, true, Y, Rest(p, a), Rest(p, b), Rest(p, c), Rest(p, d)),
                       FaceFlux(p, true, Y, Rest(p, b), Rest(p, c), Rest(p, d), Rest(p, e)))
         == ZERO.(rho := Rate(p, a, b, c, d, e))
  {
    hide FaceFlux;
    hide Divergence;
    hide LeftDensity;
    hide RightDensity;
    hide Diffusion;
    hide Base;
    hide Quotient;
    hide Energy;
    hide Pressure;
    RestFace(p, a, b, c, d);
    RestFace(p, b, c, d, e);
    RestDivergence(p, Rest(p, c), w, Diffusion(p, LeftDensity(a, b, c), RightDensity(b, c, d)),
                   Diffusion(p, LeftDensity(b, c, d), RightDensity(c, d, e)));
  }

  // ----- Layers -----

  /** Row j at rest with density f(j). */
  function Layers(p: Params, f: int -> real): (g: Grid)
    ensures Shape(g, p.nx, p.ny)
    ensures forall i, j :: 0 <= i < p.nx && 0 <= j < p.ny ==> g[j][i] == Rest(p, f(j))
  {
    seq(p.ny, j requires 0 <= j < p.ny => seq(p.nx, i requires 0 <= i < p.nx => Rest(p, f(j))))
  }

  /** The density of row j, rows repeating. */
  function Around(p: Params, f: int -> real, j: int): real
    requires -p.ny <= j < 2 * p.ny
  {
    f(Wrap(j, p.ny))
  }

  lemma LayersAt(p: Params, f: int -> real, i: int, j: int)
    requires -p.nx <= i < 2 * p.nx && -p.ny <= j < 2 * p.ny
    ensures At(p, Layers(p, f), i, j) == Rest(p, Around(p, f, j))
  {
    hide Rest;
  }

  ghost predicate Dense(p: Params, f: int -> real) {
    forall j :: 0 <= j < p.ny ==> Base(p) <= f(j)
  }

  function RateAround(p: Params, f: int -> real, j: int): real
    requires 0 <= j < p.ny
  {
    Rate(p, Around(p, f, j - 2), Around(p, f, j - 1), Around(p, f, j), Around(p, f, j + 1), Around(p, f, j + 2))
  }

  lemma LayersRhs(p: Params, f: int -> real, i: int, j: int)
    requires SquareRoot(p) && Dense(p, f) && 0 <= i < p.nx && 0 <= j < p.ny
    ensures RhsCell(p, true, Layers(p, f), i, j) == ZERO.(rho := RateAround(p, f, j))
  {
    hide FaceFlux;
    hide Divergence;
    hide Rate;
    hide Rest;
    hide Base;
    hide At;
    hide Around;
    var g := Layers(p, f);
    hide Layers;
    LayersAt(p, f, i - 2, j);
    LayersAt(p, f, i - 1, j);
    LayersAt(p, f, i, j);
    LayersAt(p, f, i + 1, j);
    LayersAt(p, f, i + 2, j);
    LayersAt(p, f, i, j - 2);
    LayersAt(p, f, i, j - 1);
    LayersAt(p, f, i, j + 1);
    LayersAt(p, f, i, j + 2);
    AroundDense(p, f, j - 1);
    AroundDense(p, f, j);
    AroundDense(p, f, j + 1);
    RestStencil(p, WestFace(p, true, g, i, j), Around(p, f, j - 2), Around(p, f, j - 1), Around(p, f, j),
                Around(p, f, j + 1), Around(p, f, j + 2));
    HereAt(p, g, i, j);
  }

  lemma AroundDense(p: Params, f: int -> real, j: int)
    requires Dense(p, f) && -p.ny <= j < 2 * p.ny
    ensures Base(p) <= Around(p, f, j)
  {
  }

  lemma HereAt(p: Params, g: Grid, i: int, j: int)
    requires Shape(g, p.nx, p.ny) && 0 <= i < p.nx && 0 <= j < p.ny
    ensures At(p, g, i, j) == g[j][i]
  {
  }

  // ----- One predicted stage -----

  /** Rows 0 and ny - 2 twice as dense as the rest. */
  function Pattern(p: Params): int -> real {
    j => if j == 0 || j == p.ny - 2 then 2.0 * Base(p) else Base(p)
  }

  function Spread(l: real, c: real, r: real): real {
    c + 0.375 * (l - 2.0 * c + r)
  }

  /** The densities after the first stage. */
  function Staged(p: Params): int -> real {
    j => if 0 <= j < p.ny then
           Spread(Around(p, Pattern(p), j - 1), Around(p, Pattern(p), j), Around(p, Pattern(p), j + 1))
         else Base(p)
  }

  /** Three quarters of the time sound takes across a cell. */
  function Tick(p: Params): real
    requires Sound(p, Base(p)) != 0.0
  {
    Quotient(Times(0.75, Dy(p)), Sound(p, Base(p)))
  }

  lemma TickTimes(c: real, dy: real, x: real, y: real)
    requires 0.0 < c && 0.0 < dy
    ensures var dt := Quotient(Times(0.75, dy), c);
            && 0.0 < dt
            && Times(dt, Quotient(Times(0.5 * c, x) - Times(0.5 * c, y), dy)) == 0.375 * (x - y)
  {
    var q := Quotient(Times(0.75, dy), c);
    var z := Quotient(Times(0.5 * c, x) - Times(0.5 * c, y), dy);
    assert q * c == 0.75 * dy;
    PositiveQuotient(0.75 * dy, c);
    assert z * dy == (0.5 * c) * (x - y);
    assert (q * z) * dy == q * (z * dy);
    assert q * ((0.5 * c) * (x - y)) == 0.5 * ((q * c) * (x - y));
    assert 0.5 * ((0.75 * dy) * (x - y)) == (0.375 * (x - y)) * dy;
    CancelPositive(q * z, 0.375 * (x - y), dy);
    CancelPositive(0.375 * (x - y), q * z, dy);
  }

  predicate TwoValued(p: Params, x: real) {
    x == Base(p) || x == 2.0 * Base(p)
  }

  lemma NoSlope(p: Params, a: real, b: real, c: real)
    requires TwoValued(p, a) && TwoValued(p, b) && TwoValued(p, c)
    ensures LeftDensity(a, b, c) == b && RightDensity(a, b, c) == b
  {
    MinmodLimits(b - a, c - b);
    hide Minmod;
  }

  lemma TwoValuedDiffusion(p: Params, b: real, c: real)
    requires SquareRoot(p) && TwoValued(p, b) && TwoValued(p, c)
    ensures Diffusion(p, b, c) == Times(0.5 * Sound(p, Base(p)), b - c)
  {
    SoundFalls(p, Base(p), 2.0 * Base(p));
    hide Sound;
    if b == c {
      TimesAdds(0.5 * Sound(p, Base(p)), b - c, 0.0);
      TimesAdds(0.5 * Max(Sound(p, b), Sound(p, c)), b - c, 0.0);
    }
    hide Times;
  }

  lemma TwoValuedRate(p: Params, a: real, b: real, c: real, d: real, e: real)
    requires SquareRoot(p) && 0.0 < Sound(p, Base(p))
    requires TwoValued(p, a) && TwoValued(p, b) && TwoValued(p, c) && TwoValued(p, d) && TwoValued(p, e)
    ensures c + Times(Tick(p), Rate(p, a, b, c, d, e)) == Spread(b, c, d)
  {
    hide TwoValued;
    hide Sound;
    hide Base;
    NoSlope(p, a, b, c);
    NoSlope(p, b, c, d);
    NoSlope(p, c, d, e);
    TwoValuedDiffusion(p, b, c);
    TwoValuedDiffusion(p, c, d);
    hide LeftDensity;
    hide RightDensity;
    hide Diffusion;
    TickTimes(Sound(p, Base(p)), Dy(p), b - c, c - d);
    hide Times;
    hide Quotient;
  }

  lemma PatternAround(p: Params, j: int)
    requires -p.ny <= j < 2 * p.ny
    ensures TwoValued(p, Around(p, Pattern(p), j))
  {
  }

  lemma RestUpdate(p: Params, dt: real, rho: real, x: real)
    ensures Add(Rest(p, rho), Scale(dt, ZERO.(rho := x))) == Rest(p, rho + Times(dt, x))
  {
    TimesAdds(dt, 0.0, 0.0);
    hide Times;
  }

  lemma SpreadDense(p: Params, l: real, c: real, r: real)
    requires TwoValued(p, l) && TwoValued(p, c) && TwoValued(p, r)
    ensures Base(p) <= Spread(l, c, r)
  {
  }

  lemma StagedCell(p: Params, i: int, j: int)
    requires SquareRoot(p) && 0.0 < Sound(p, Base(p)) && 0 <= i < p.nx && 0 <= j < p.ny
    ensures Stage(p, Tick(p), Layers(p, Pattern(p)))[j][i] == Rest(p, Staged(p)(j)) && Base(p) <= Staged(p)(j)
  {
    hide Rest;
    hide Regularize;
    hide RhsCell;
    hide Around;
    hide Pattern;
    hide Spread;
    hide Rate;
    hide Sound;
    hide Tick;
    hide Base;
    hide Times;
    hide Add;
    hide Scale;
    hide TwoValued;
    var f := Pattern(p);
    PatternDense(p);
    PatternAround(p, j - 2);
    PatternAround(p, j - 1);
    PatternAround(p, j);
    PatternAround(p, j + 1);
    PatternAround(p, j + 2);
    LayersRhs(p, f, i, j);
    TwoValuedRate(p, Around(p, f, j - 2), Around(p, f, j - 1), Around(p, f, j), Around(p, f, j + 1),
        Around(p, f, j + 2));
    SpreadDense(p, Around(p, f, j - 1), Around(p, f, j), Around(p, f, j + 1));
    AroundHere(p, f, j);
    RestUpdate(p, Tick(p), f(j), RateAround(p, f, j));
    RestCell(p, Staged(p)(j));
  }

  lemma PatternDense(p: Params)
    ensures Dense(p, Pattern(p))
  {
  }

  lemma AroundHere(p: Params, f: int -> real, j: int)
    requires 0 <= j < p.ny
    ensures Around(p, f, j) == f(j)
  {
  }

  lemma StageIsLayers(p: Params)
    requires SquareRoot(p) && 0.0 < Sound(p, Base(p))
    ensures Stage(p, Tick(p), Layers(p, Pattern(p))) == Layers(p, Staged(p)) && Dense(p, Staged(p))
  {
    hide Rest;
    hide Stage;
    hide Sound;
    hide Tick;
    hide Base;
    hide Staged;
    hide Pattern;
    var h := Stage(p, Tick(p), Layers(p, Pattern(p)));
    forall i, j | 0 <= i < p.nx && 0 <= j < p.ny
      ensures h[j][i] == Layers(p, Staged(p))[j][i] && Base(p) <= Staged(p)(j)
    {
      StagedCell(p, i, j);
    }
    SameGrid(h, Layers(p, Staged(p)), p.nx, p.ny);
    forall j | 0 <= j < p.ny ensures Base(p) <= Staged(p)(j) {
      StagedCell(p, 0, j);
    }
  }

  /** Around row 0 the staged densities fall from row -1 and do not rise past row 1, and row -2 is
      less dense than it was. */
  lemma StagedShape(p: Params)
    ensures var f := Staged(p);
            var a, b, c, d, e := Around(p, f, -2), Around(p, f, -1), Around(p, f, 0), Around(p, f, 1), Around(p, f, 2);
            && a == c < b < Pattern(p)(p.ny - 2) && c <= d && (d == c || e <= d)
            && Base(p) <= b && Base(p) <= c && Base(p) <= d
  {
  }

  // ----- The second stage tells the stale row from the right one -----

  lemma DiffusionUpwind(p: Params, a: real, a': real, b: real)
    requires SquareRoot(p) && Base(p) <= b <= a' < a
    ensures 0.0 <= Diffusion(p, a', b) < Diffusion(p, a, b)
  {
    SoundFalls(p, b, a');
    SoundFalls(p, b, a);
    hide Sound;
    Increasing(0.5 * Sound(p, b), a' - b, a - b);
    hide Times;
  }

  lemma DiffusionDownwind(p: Params, a: real, b: real, b': real)
    requires SquareRoot(p) && Base(p) <= a <= b' <= b
    ensures Diffusion(p, a, b) <= Diffusion(p, a, b') <= 0.0
  {
    SoundFalls(p, a, b');
    SoundFalls(p, a, b);
    hide Sound;
    if b' < b { Increasing(0.5 * Sound(p, a), a - b, a - b'); }
    if a < b' { Increasing(0.5 * Sound(p, a), a - b', 0.0); }
    TimesAdds(0.5 * Sound(p, a), 0.0, 0.0);
    hide Times;
  }

  lemma Increasing(k: real, x: real, y: real)
    requires 0.0 < k && x < y
    ensures Times(k, x) < Times(k, y) && (0.0 <= x ==> 0.0 <= Times(k, x))
  {
    PositiveProduct(k, y - x);
  }

  lemma QuotientIncreases(x: real, y: real, d: real)
    requires 0.0 < d && 0.0 <= x < y
    ensures 0.0 <= Quotient(x, d) < Quotient(y, d)
  {
    PositiveQuotient(y - x, d);
    assert y / d - x / d == (y - x) / d;
    if 0.0 < x { PositiveQuotient(x, d); }
  }

  /** Where row c is a minimum, a denser row two below takes away from the reconstructed density of
      the row below, and the row two above never adds to that of the row above. */
  lemma FaceDensities(a: real, a': real, b: real, c: real, d: real, e: real, e': real)
    requires a == c < b < a' && c <= d && (d == c || e <= d)
    ensures LeftDensity(a, b, c) == b && RightDensity(b, c, d) == c && LeftDensity(b, c, d) == c &&
        RightDensity(c, d, e) == d
    ensures c <= LeftDensity(a', b, c) < b && c <= RightDensity(c, d, e') <= d
  {
    MinmodLimits(b - a, c - b);
    MinmodLimits(c - b, d - c);
    MinmodLimits(d - c, e - d);
    FallingSlope(b - a', c - b);
    LevelSlope(d - c, e - d);
    LevelSlope(d - c, e' - d);
    LevelSlope(c - b, d - c);
    hide Minmod;
  }

  /** So replacing the row two below by a denser one makes row c gain less, whatever the row two
      above is replaced by. */
  lemma RatesDiffer(p: Params, a: real, a': real, b: real, c: real, d: real, e: real, e': real)
    requires SquareRoot(p) && Base(p) <= b && Base(p) <= c && Base(p) <= d
    requires a == c < b < a' && c <= d && (d == c || e <= d)
    ensures 0.0 <= Rate(p, a', b, c, d, e') < Rate(p, a, b, c, d, e)
  {
    hide LeftDensity;
    hide RightDensity;
    hide Diffusion;
    hide Quotient;
    hide Base;
    FaceDensities(a, a', b, c, d, e, e');
    var l', n' := LeftDensity(a', b, c), RightDensity(c, d, e');
    DiffusionUpwind(p, b, l', c);
    DiffusionDownwind(p, c, d, n');
    QuotientIncreases(Diffusion(p, l', c) - Diffusion(p, c, n'), Diffusion(p, b, c) - Diffusion(p, c, d), Dy(p));
  }

  lemma FallingSlope(x: real, y: real)
    requires x < 0.0 && y < 0.0
    ensures y <= Minmod(x, y) < 0.0
  {
    assert 0.0 < x * y by { PositiveProduct(-x, -y); }
  }

  lemma LevelSlope(x: real, y: real)
    ensures x == 0.0 || y == 0.0 ==> Minmod(x, y) == 0.0
    ensures 0.0 <= x ==> 0.0 <= Minmod(x, y) <= x
  {
    MinmodLimits(x, y);
    if x == 0.0 || y == 0.0 { assert x * y == 0.0; }
    if 0.0 <= x && y < 0.0 && x != 0.0 { MinmodLimits(x, y); }
  }

  lemma RestAverage(p: Params, dt: real, a: real, b: real, x: real)
    ensures Average(dt, Rest(p, a), Rest(p, b), ZERO.(rho := x)) == Rest(p, Times(0.5, a + b + Times(dt, x)))
  {
    TimesAdds(dt, 0.0, 0.0);
    TimesAdds(0.5, 0.0, 0.0);
    hide Energy;
  }
}
