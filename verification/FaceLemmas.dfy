/** What holds of one face: mirror symmetry, consistency, the mass-flux bounds behind positivity,
    and that reconstruction adds no extrema. */
module FaceLemmas {
  import opened States
  import opened Physics

  // ----- The square root -----

  ghost predicate NonNegativeRoot(p: Params) {
    forall x {:trigger p.sqrt(x)} :: 0.0 <= x ==> 0.0 <= p.sqrt(x)
  }

  ghost predicate SquareRoot(p: Params) {
    NonNegativeRoot(p) && forall x {:trigger p.sqrt(x)} :: 0.0 <= x ==> p.sqrt(x) * p.sqrt(x) == x
  }

  /** `c` squared is the larger root of x^2 - (a2+b2) x + a2 bn2, the fast-wave dispersion relation. */
  predicate IsFastWave(c: real, a2: real, b2: real, bn2: real) {
    var x := c * c;
    x * x - (a2 + b2) * x + a2 * bn2 == 0.0 && a2 + b2 <= 2.0 * x
  }

  /** The two clamps inside `fast_magnetosonic` never act, and the speed solves the dispersion
      relation. */
  lemma FastSpeedSolvesDispersion(p: Params, w: Primitive, dir: Direction)
    requires SquareRoot(p) && 0.000000000000000000000000000001 <= w.rho && 0.0 <= w.p
    ensures var inv := 1.0 / w.rho;
            var bn := if dir == X then w.bX else w.bY;
            IsFastWave(FastMagnetosonic(p, w, dir), PerMass(p.gamma * w.p, inv),
                       PerMass(SumSquares(w.bX, w.bY, w.bZ), inv), PerMass(Times(bn, bn), inv))
  {
    hide FastSpeed;
    hide PerMass;
    hide IsFastWave;
    hide Times;
    SquareInSum(w.bX, w.bY, w.bZ);
    hide SumSquares;
    FastSpeedSquared(p, w.rho, w.p, SumSquares(w.bX, w.bY, w.bZ), if dir == X then w.bX else w.bY);
  }

  lemma FastSpeedSquared(p: Params, rho: real, pr: real, bb: real, bn: real)
    requires SquareRoot(p) && 0.000000000000000000000000000001 <= rho && 0.0 <= pr && Times(bn, bn) <= bb
    ensures var inv := 1.0 / rho;
            IsFastWave(FastSpeed(p.sqrt, p.gamma, rho, pr, bb, bn), PerMass(p.gamma * pr, inv), PerMass(bb, inv),
                       PerMass(Times(bn, bn), inv))
  {
    var inv := 1.0 / rho;
    var a2, b2, bn2 := PerMass(p.gamma * pr, inv), PerMass(bb, inv), PerMass(Times(bn, bn), inv);
    PositiveQuotient(1.0, rho);
    NonNegativeProduct(p.gamma, pr);
    NonNegativeProduct(p.gamma * pr, inv);
    NonNegativeProduct(bb - bn * bn, inv);
    assert 0.0 <= bn * bn;
    NonNegativeProduct(bb, inv);
    assert 0.0 <= a2 && 0.0 <= b2 && bn2 <= b2;
    hide PerMass;
    DiscriminantNonNegative(a2, b2, bn2);
    var q := p.sqrt(Discriminant(a2, b2, bn2));
    assert 0.0 <= q && q * q == Discriminant(a2, b2, bn2);
    RootOfQuadratic(a2, b2, bn2, q, 0.5 * ((a2 + b2) + q));
    hide Discriminant;
  }

  lemma SquareInSum(x: real, y: real, z: real)
    ensures Times(x, x) <= SumSquares(x, y, z) && Times(y, y) <= SumSquares(x, y, z)
  {
    assert 0.0 <= x * x && 0.0 <= y * y && 0.0 <= z * z;
  }

  lemma DiscriminantNonNegative(a: real, b: real, n: real)
    requires 0.0 <= a && n <= b
    ensures 0.0 <= Discriminant(a, b, n)
  {
    NonNegativeProduct(a, b - n);
    var d := a - b;
    assert Discriminant(a, b, n) == d * d + 4.0 * (a * (b - n));
    assert 0.0 <= d * d;
  }

  lemma RootOfQuadratic(a: real, b: real, n: real, q: real, x: real)
    requires q * q == Discriminant(a, b, n) && x == 0.5 * (a + b + q)
    ensures x * x - (a + b) * x + a * n == 0.0
  {
    var s := a + b;
    assert x * x == 0.25 * (s * s + 2.0 * (s * q) + q * q);
    assert s * x == 0.5 * (s * s + s * q);
  }

  // ----- Mirror symmetry -----

  function Turn(dir: Direction): Direction {
    if dir == X then Y else X
  }

  /** The parameters of the transposed problem. */
  function Transposed(p: SimulationParams): SimulationParams {
    p.(nx := p.ny, ny := p.nx, xMin := p.yMin, xMax := p.yMax, yMin := p.xMin, yMax := p.xMax)
  }

  function MirrorPrimitive(w: Primitive): Primitive {
    Primitive(w.rho, w.vY, w.vX, w.vZ, w.bY, w.bX, w.bZ, w.p, w.psi)
  }

  /** Two parameter sets that differ at most in the grid. */
  ghost predicate SamePhysics(p: Params, q: Params) {
    p.gamma == q.gamma && p.rhoFloor == q.rhoFloor && p.pFloor == q.pFloor && p.glmCh == q.glmCh
    && p.flux == q.flux && p.sqrt == q.sqrt
  }

  lemma SumSquaresSwaps(x: real, y: real, z: real)
    ensures SumSquares(x, y, z) == SumSquares(y, x, z)
  {
  }

  lemma PrimitiveMirrors(p: Params, q: Params, s: State)
    requires SamePhysics(p, q)
    ensures ToPrimitive(q, Mirror(s)) == MirrorPrimitive(ToPrimitive(p, s))
  {
    var w := ToPrimitive(p, s);
    SumSquaresSwaps(w.vX, w.vY, w.vZ);
    SumSquaresSwaps(s.bX, s.bY, s.bZ);
    hide SumSquares;
    hide Velocity;
    hide Momentum;
    hide ThermalPressure;
    hide TotalEnergy;
  }

  lemma FluxMirrors(p: Params, q: Params, s: State, dir: Direction)
    requires SamePhysics(p, q)
    ensures Flux(q, Mirror(s), Turn(dir)) == Mirror(Flux(p, s, dir))
  {
    var w := ToPrimitive(p, s);
    PrimitiveMirrors(p, q, s);
    SumSquaresSwaps(w.bX, w.bY, w.bZ);
    DotSwaps(w);
    hide SumSquares;
    hide Dot;
    hide Tension;
    hide NormalStress;
    hide Induction;
    hide EnergyFlux;
    hide CleaningFlux;
    hide ToPrimitive;
  }

  lemma DotSwaps(w: Primitive)
    ensures Dot(MirrorPrimitive(w)) == Dot(w)
  {
  }

  lemma FastSpeedMirrors(p: Params, q: Params, w: Primitive, dir: Direction)
    requires SamePhysics(p, q)
    ensures FastMagnetosonic(q, MirrorPrimitive(w), Turn(dir)) == FastMagnetosonic(p, w, dir)
  {
    SumSquaresSwaps(w.bX, w.bY, w.bZ);
    hide SumSquares;
    hide FastSpeed;
  }

  lemma SignalSpeedMirrors(p: Params, q: Params, s: State, dir: Direction)
    requires SamePhysics(p, q)
    ensures SignalSpeed(q, Mirror(s), Turn(dir)) == SignalSpeed(p, s, dir)
  {
    PrimitiveMirrors(p, q, s);
    FastSpeedMirrors(p, q, ToPrimitive(p, s), dir);
    hide ToPrimitive;
    hide FastMagnetosonic;
  }

  lemma RiemannMirrors(p: Params, q: Params, l: State, r: State, dir: Direction)
    requires SamePhysics(p, q)
    ensures RiemannFlux(q, Mirror(l), Mirror(r), Turn(dir)) == Mirror(RiemannFlux(p, l, r, dir))
  {
    FluxMirrors(p, q, l, dir);
    FluxMirrors(p, q, r, dir);
    PrimitiveMirrors(p, q, l);
    PrimitiveMirrors(p, q, r);
    SignalSpeedMirrors(p, q, l, dir);
    SignalSpeedMirrors(p, q, r, dir);
    FastSpeedMirrors(p, q, ToPrimitive(p, l), dir);
    FastSpeedMirrors(p, q, ToPrimitive(p, r), dir);
    hide ToPrimitive;
    hide Flux;
    hide FastMagnetosonic;
    hide SignalSpeed;
    hide RusanovFlux;
    hide HllFlux;
  }

  lemma RegularizeMirrors(p: Params, q: Params, s: State)
    requires SamePhysics(p, q)
    ensures Regularize(q, Mirror(s)) == Mirror(Regularize(p, s))
  {
    var w := ToPrimitive(p, s);
    PrimitiveMirrors(p, q, s);
    SumSquaresSwaps(w.vX, w.vY, w.vZ);
    SumSquaresSwaps(w.bX, w.bY, w.bZ);
    hide SumSquares;
    hide Velocity;
    hide Momentum;
    hide ThermalPressure;
    hide TotalEnergy;
    hide ToPrimitive;
  }

  lemma FaceFluxMirrors(p: Params, q: Params, second: bool, dir: Direction, ll: State, l: State, r: State, rr: State)
    requires SamePhysics(p, q)
    ensures FaceFlux(q, second, Turn(dir), Mirror(ll), Mirror(l), Mirror(r), Mirror(rr))
         == Mirror(FaceFlux(p, second, dir, ll, l, r, rr))
  {
    var a, b := FaceLeft(second, ll, l, r), FaceRight(second, l, r, rr);
    hide Minmod;
    hide RiemannFlux;
    hide Regularize;
    assert FaceLeft(second, Mirror(ll), Mirror(l), Mirror(r)) == Mirror(a);
    assert FaceRight(second, Mirror(l), Mirror(r), Mirror(rr)) == Mirror(b);
    RegularizeMirrors(p, q, a);
    RegularizeMirrors(p, q, b);
    RiemannMirrors(p, q, Regularize(p, a), Regularize(p, b), dir);
  }

  // ----- Consistency -----

  /** Both Riemann solvers return the physical flux when the two sides agree. */
  lemma RiemannConsistent(p: Params, s: State, dir: Direction)
    ensures RiemannFlux(p, s, s, dir) == Flux(p, s, dir)
  {
    hide Flux;
    hide ToPrimitive;
    hide FastMagnetosonic;
    var f := Flux(p, s, dir);
    match p.flux
    case Rusanov =>
    case HLL =>
      var w := ToPrimitive(p, s);
      var c := FastMagnetosonic(p, w, dir);
      var sl, sr := NormalVelocity(w, dir) - c, NormalVelocity(w, dir) + c;
      if sl < 0.0 < sr {
        HllConsistent(sl, sr, f.rho, s.rho); HllConsistent(sl, sr, f.mX, s.mX);
        HllConsistent(sl, sr, f.mY, s.mY); HllConsistent(sl, sr, f.mZ, s.mZ);
        HllConsistent(sl, sr, f.bX, s.bX); HllConsistent(sl, sr, f.bY, s.bY);
        HllConsistent(sl, sr, f.bZ, s.bZ); HllConsistent(sl, sr, f.e, s.e);
        HllConsistent(sl, sr, f.psi, s.psi);
        hide HllFlux;
      }
  }

  lemma HllConsistent(sl: real, sr: real, f: real, u: real)
    requires sl < 0.0 < sr
    ensures HllFlux(sl, sr, f, f, u, u) == f
  {
    var d := sr - sl;
    assert sr * f - sl * f == f * d;
    assert d * (1.0 / d) == 1.0;
    assert f * d * (1.0 / d) == f * (d * (1.0 / d));
  }

  // ----- Mass flux bounds -----

  /** With every wave slower than `a`, no more mass leaves the left cell through a face than
      rhoL (vL + a)/2, and no more leaves the right cell than rhoR (a - vR)/2: the mass flux of
      both solvers, in every branch. */
  lemma MassFluxBounds(p: Params, l: State, r: State, dir: Direction, a: real)
    requires NonNegativeRoot(p)
    requires p.rhoFloor <= l.rho && p.rhoFloor <= r.rho
    requires SignalSpeed(p, l, dir) <= a && SignalSpeed(p, r, dir) <= a
    ensures var f := RiemannFlux(p, l, r, dir).rho;
            && f <= Share(l.rho, NormalVelocity(ToPrimitive(p, l), dir), a)
            && f >= -Share(r.rho, -NormalVelocity(ToPrimitive(p, r), dir), a)
  {
    hide Flux;
    hide ToPrimitive;
    hide FastMagnetosonic;
    hide RusanovFlux;
    hide HllFlux;
    hide Share;
    hide Momentum;
    var vl, vr := NormalVelocity(ToPrimitive(p, l), dir), NormalVelocity(ToPrimitive(p, r), dir);
    var cl := FastMagnetosonic(p, ToPrimitive(p, l), dir);
    var cr := FastMagnetosonic(p, ToPrimitive(p, r), dir);
    MassFlux(p, l, dir);
    MassFlux(p, r, dir);
    FastSpeedNonNegative(p, ToPrimitive(p, l), dir);
    FastSpeedNonNegative(p, ToPrimitive(p, r), dir);
    match p.flux
    case Rusanov =>
      RusanovMass(l.rho, r.rho, vl, vr, Max(SignalSpeed(p, l, dir), SignalSpeed(p, r, dir)), a);
    case HLL =>
      var sl, sr := Min(vl - cl, vr - cr), Max(vl + cl, vr + cr);
      if sl >= 0.0 {
        UpwindMass(l.rho, r.rho, vl, vr, a);
      } else if sr <= 0.0 {
        DownwindMass(l.rho, r.rho, vl, vr, a);
      } else {
        HllMass(l.rho, r.rho, vl, vr, sl, sr, a);
      }
  }

  /** The mass a cell of density `rho` can lose through one face to a flow `v` towards it. */
  function Share(rho: real, v: real, a: real): real {
    rho * (0.5 * (v + a))
  }

  lemma MassFlux(p: Params, s: State, dir: Direction)
    requires p.rhoFloor <= s.rho
    ensures Flux(p, s, dir).rho == Momentum(s.rho, NormalVelocity(ToPrimitive(p, s), dir))
  {
    MomentumVelocity(s.mX, s.rho);
    MomentumVelocity(s.mY, s.rho);
    hide SumSquares;
    hide Velocity;
    hide Momentum;
    hide ThermalPressure;
    hide TotalEnergy;
  }

  lemma FastSpeedNonNegative(p: Params, w: Primitive, dir: Direction)
    requires NonNegativeRoot(p)
    ensures 0.0 <= FastMagnetosonic(p, w, dir)
  {
  }

  lemma RusanovMass(rl: real, rr: real, vl: real, vr: real, alpha: real, a: real)
    requires 0.0 <= rl && 0.0 <= rr && Abs(vl) <= alpha <= a && Abs(vr) <= alpha
    ensures -Share(rr, -vr, a) <= RusanovFlux(alpha, Momentum(rl, vl), Momentum(rr, vr), rl, rr) <= Share(rl, vl, a)
  {
    assert RusanovFlux(alpha, Momentum(rl, vl), Momentum(rr, vr), rl, rr)
        == Momentum(rl, 0.5 * (vl + alpha)) - Momentum(rr, 0.5 * (-vr + alpha));
    ShareBounds(rl, 0.5 * (vl + alpha), vl, a);
    ShareBounds(rr, 0.5 * (-vr + alpha), -vr, a);
    hide Share;
    hide Momentum;
    hide RusanovFlux;
  }

  lemma UpwindMass(rl: real, rr: real, vl: real, vr: real, a: real)
    requires 0.0 <= rl && 0.0 <= rr && 0.0 <= vl <= a && vr <= a
    ensures -Share(rr, -vr, a) <= Momentum(rl, vl) <= Share(rl, vl, a)
  {
    ShareBounds(rl, vl, vl, a);
    ShareBounds(rr, 0.0, -vr, a);
    hide Share;
    hide Momentum;
  }

  lemma DownwindMass(rl: real, rr: real, vl: real, vr: real, a: real)
    requires 0.0 <= rl && 0.0 <= rr && -a <= vr <= 0.0 && -a <= vl
    ensures -Share(rr, -vr, a) <= Momentum(rr, vr) <= Share(rl, vl, a)
  {
    ShareBounds(rr, -vr, -vr, a);
    assert Momentum(rr, -vr) == -Momentum(rr, vr);
    ShareBounds(rl, 0.0, vl, a);
    hide Share;
    hide Momentum;
  }

  lemma HllMass(rl: real, rr: real, vl: real, vr: real, sl: real, sr: real, a: real)
    requires 0.0 <= rl && 0.0 <= rr
    requires -a <= sl < 0.0 < sr <= a && sl <= vl <= sr && sl <= vr <= sr
    ensures -Share(rr, -vr, a) <= HllFlux(sl, sr, Momentum(rl, vl), Momentum(rr, vr), rl, rr) <= Share(rl, vl, a)
  {
    var inv := 1.0 / (sr - sl);
    PositiveQuotient(1.0, sr - sl);
    assert inv * (sr - sl) == 1.0;
    // Each side contributes in its own direction only.
    HllSplit(rl, rr, vl, vr, sl, sr, inv);
    HllWeight(vl, sl, sr, a, inv);
    HllWeight(-vr, -sr, -sl, a, inv);
    ShareBounds(rl, Weight(vl, sl, sr, inv), vl, a);
    ShareBounds(rr, Weight(-vr, -sr, -sl, inv), -vr, a);
    hide Weight;
    hide HllFlux;
    hide Share;
    hide Momentum;
  }

  function Weight(v: real, sl: real, sr: real, inv: real): real {
    inv * (sr * (v - sl))
  }

  lemma HllSplit(rl: real, rr: real, vl: real, vr: real, sl: real, sr: real, inv: real)
    requires sl < sr && inv == 1.0 / (sr - sl)
    ensures HllFlux(sl, sr, Momentum(rl, vl), Momentum(rr, vr), rl, rr)
         == Momentum(rl, Weight(vl, sl, sr, inv)) - Momentum(rr, Weight(-vr, -sr, -sl, inv))
  {
  }

  lemma ShareBounds(r: real, x: real, v: real, a: real)
    requires 0.0 <= r && 0.0 <= x <= 0.5 * (v + a)
    ensures 0.0 <= Momentum(r, x) <= Share(r, v, a)
  {
    NonNegativeProduct(r, x);
    NonNegativeProduct(r, 0.5 * (v + a) - x);
  }

  /** The share sr (v - sl)/(sr - sl) grows as the wave fan widens to [-a, a]. */
  lemma HllWeight(v: real, sl: real, sr: real, a: real, inv: real)
    requires -a <= sl < 0.0 < sr <= a && sl <= v <= sr && inv * (sr - sl) == 1.0 && 0.0 < inv
    ensures 0.0 <= Weight(v, sl, sr, inv) <= 0.5 * (v + a)
  {
    var d := sr - sl;
    var x := sr * (v - sl);
    // (v + a) d - 2 sr (v - sl) = (a - sr)(v - sl) + (a + sl)(sr - v)
    assert (v + a) * d - 2.0 * x == (a - sr) * (v - sl) + (a + sl) * (sr - v);
    assert 0.0 <= (a - sr) * (v - sl) && 0.0 <= (a + sl) * (sr - v);
    var h := 0.5 * (v + a);
    assert x <= h * d;
    assert inv * x <= inv * (h * d);
    assert inv * (h * d) == h * (inv * d);
    assert 0.0 <= x;
  }

  // ----- Reconstruction -----

  /** Minmod is a limiter: it never exceeds either argument and never changes sign. */
  lemma MinmodLimits(a: real, b: real)
    ensures var m := Minmod(a, b);
            && (0.0 <= a && 0.0 <= b ==> 0.0 <= m <= a && m <= b)
            && (a <= 0.0 && b <= 0.0 ==> a <= m <= 0.0 && b <= m)
            && ((a < 0.0 < b || b < 0.0 < a) ==> m == 0.0)
  {
    if 0.0 < a && 0.0 < b { assert 0.0 < a * b; }
    if a < 0.0 && b < 0.0 { assert 0.0 < a * b; }
    if a < 0.0 < b { assert a * b <= 0.0; }
    if b < 0.0 < a { assert a * b <= 0.0; }
  }

  predicate Between(x: real, a: real, b: real) {
    Min(a, b) <= x <= Max(a, b)
  }

  /** At every face the two reconstructed values of each variable lie between the adjacent cell
      values and keep their order. */
  lemma ReconstructionAddsNoExtrema(second: bool, ll: State, l: State, r: State, rr: State, v: int)
    ensures var a, b := FaceLeft(second, ll, l, r).Get(v), FaceRight(second, l, r, rr).Get(v);
            && Between(a, l.Get(v), r.Get(v)) && Between(b, l.Get(v), r.Get(v))
            && (l.Get(v) <= r.Get(v) ==> a <= b) && (r.Get(v) <= l.Get(v) ==> b <= a)
  {
    var x0, x1, x2, x3 := ll.Get(v), l.Get(v), r.Get(v), rr.Get(v);
    hide Minmod;
    if second {
      assert FaceLeft(second, ll, l, r).Get(v) == x1 + 0.5 * Minmod(x1 - x0, x2 - x1);
      assert FaceRight(second, l, r, rr).Get(v) == x2 - 0.5 * Minmod(x2 - x1, x3 - x2);
      HalfSlope(x1 - x0, x2 - x1);
      HalfSlope(x3 - x2, x2 - x1);
      MinmodCommutes(x2 - x1, x3 - x2);
    }
  }

  lemma HalfSlope(a: real, d: real)
    ensures 0.0 <= d ==> 0.0 <= Minmod(a, d) <= d
    ensures d <= 0.0 ==> d <= Minmod(a, d) <= 0.0
  {
    MinmodLimits(a, d);
    if d == 0.0 { assert a * d == 0.0; }
  }

  lemma MinmodCommutes(a: real, b: real)
    ensures Minmod(a, b) == Minmod(b, a)
  {
    assert a * b == b * a;
    if a < 0.0 < b || b < 0.0 < a { assert a * b <= 0.0; }
  }

  /** Positive neighbours reconstruct to positive densities. */
  lemma ReconstructionKeepsDensityPositive(second: bool, ll: State, l: State, r: State, rr: State)
    requires 0.0 < l.rho && 0.0 < r.rho
    ensures 0.0 < FaceLeft(second, ll, l, r).rho && 0.0 < FaceRight(second, l, r, rr).rho
  {
    ReconstructionAddsNoExtrema(second, ll, l, r, rr, 0);
  }

  // ----- The limited slope, exactly -----

  /** `x` lies between zero and `a`. */
  predicate Towards(x: real, a: real) {
    (0.0 <= x <= a) || (a <= x <= 0.0)
  }

  /** `m` is the farthest value that lies between zero and each of `a` and `b`. */
  ghost predicate IsLimited(m: real, a: real, b: real) {
    && (Towards(m, a) && Towards(m, b))
    && forall x {:trigger Towards(x, a)} :: Towards(x, a) && Towards(x, b) ==> Abs(x) <= Abs(m)
  }

  /** That is what minmod returns, and nothing else is. */
  lemma MinmodIsLimited(a: real, b: real, m: real)
    ensures IsLimited(m, a, b) <==> m == Minmod(a, b)
  {
    MinmodLimits(a, b);
    LevelMinmod(a, b);
    var k := Minmod(a, b);
    assert Towards(k, a) && Towards(k, b);
    if (0.0 < a && 0.0 < b) || (a < 0.0 && b < 0.0) {
      assert k == if Abs(a) < Abs(b) then a else b by { SameSign(a, b); }
    }
    hide Minmod;
  }

  lemma LevelMinmod(a: real, b: real)
    ensures a == 0.0 || b == 0.0 ==> Minmod(a, b) == 0.0
  {
    if a == 0.0 || b == 0.0 { assert a * b == 0.0; }
  }

  lemma SameSign(a: real, b: real)
    requires (0.0 < a && 0.0 < b) || (a < 0.0 && b < 0.0)
    ensures 0.0 < a * b
  {
    if a < 0.0 { assert 0.0 < (-a) * (-b); }
  }

  lemma HalfOf(x: real)
    ensures 2.0 * Times(0.5, x) == x
  {
  }

  /** Twice the step from a cell to its face is the limited slope of its two differences, in every
      variable and on both sides of the face. */
  lemma ReconstructionIsLimited(ll: State, l: State, r: State, rr: State, v: int)
    ensures IsLimited(2.0 * (FaceLeft(true, ll, l, r).Get(v) - l.Get(v)), l.Get(v) - ll.Get(v), r.Get(v) - l.Get(v))
    ensures IsLimited(2.0 * (r.Get(v) - FaceRight(true, l, r, rr).Get(v)), r.Get(v) - l.Get(v), rr.Get(v) - r.Get(v))
  {
    var a, b := Minmod(l.Get(v) - ll.Get(v), r.Get(v) - l.Get(v)), Minmod(r.Get(v) - l.Get(v), rr.Get(v) - r.Get(v));
    HalfOf(a);
    HalfOf(b);
    MinmodIsLimited(l.Get(v) - ll.Get(v), r.Get(v) - l.Get(v), a);
    MinmodIsLimited(r.Get(v) - l.Get(v), rr.Get(v) - r.Get(v), b);
    hide Minmod;
    hide IsLimited;
    hide Times;
    assert FaceLeft(true, ll, l, r).Get(v) == l.Get(v) + Times(0.5, a);
    assert FaceRight(true, l, r, rr).Get(v) == r.Get(v) - Times(0.5, b);
  }

  /** On linear data both sides of a face hold the midpoint: the scheme sees no jump. */
  lemma LinearIsExact(ll: State, l: State, r: State, rr: State, v: int)
    ensures l.Get(v) - ll.Get(v) == r.Get(v) - l.Get(v) ==>
              2.0 * FaceLeft(true, ll, l, r).Get(v) == l.Get(v) + r.Get(v)
    ensures rr.Get(v) - r.Get(v) == r.Get(v) - l.Get(v) ==>
              2.0 * FaceRight(true, l, r, rr).Get(v) == l.Get(v) + r.Get(v)
  {
    ReconstructionIsLimited(ll, l, r, rr, v);
    hide FaceLeft;
    hide FaceRight;
    hide State.Get;
    var d := r.Get(v) - l.Get(v);
    assert Towards(d, d);
  }
}
