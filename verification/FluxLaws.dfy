/** Independent definitions the hand-written fluxes are checked against. */
module FluxLaws {
  import opened States
  import opened Physics
  import opened FaceLemmas

  // ----- The physical flux, for any normal -----

  datatype Vec = Vec(x: real, y: real, z: real)

  function Inner(a: Vec, b: Vec): real {
    a.x * b.x + a.y * b.y + a.z * b.z
  }

  function Cross(a: Vec, b: Vec): Vec {
    Vec(Minor(a.y, a.z, b.y, b.z), Minor(a.z, a.x, b.z, b.x), Minor(a.x, a.y, b.x, b.y))
  }

  function Minor(a: real, b: real, c: real, d: real): real {
    a * d - b * c
  }

  function VelocityOf(w: Primitive): Vec {
    Vec(w.vX, w.vY, w.vZ)
  }

  function FieldOf(w: Primitive): Vec {
    Vec(w.bX, w.bY, w.bZ)
  }

  function Normal(dir: Direction): Vec {
    if dir == X then Vec(1.0, 0.0, 0.0) else Vec(0.0, 1.0, 0.0)
  }

  /** One component of the momentum flux through the normal: advection, total pressure, tension. */
  function StressFlux(w: Primitive, v: real, b: real, n: real, normal: Vec): real {
    var field := FieldOf(w);
    w.rho * v * Inner(VelocityOf(w), normal) + (w.p + 0.5 * Inner(field, field)) * n - b * Inner(field, normal)
  }

  /** One component of the field flux, with the cleaning potential along the normal. */
  function FieldFlux(w: Primitive, v: real, b: real, n: real, normal: Vec): real {
    b * Inner(VelocityOf(w), normal) - v * Inner(FieldOf(w), normal) + w.psi * n
  }

  /** Enthalpy and kinetic energy carried along, plus the Poynting flux (B x (v x B)) . n. */
  function PowerFlux(gamma: real, w: Primitive, normal: Vec): real
    requires gamma != 1.0
  {
    var v, b := VelocityOf(w), FieldOf(w);
    (0.5 * w.rho * Inner(v, v) + gamma * (w.p / (gamma - 1.0))) * Inner(v, normal)
        + Inner(Cross(b, Cross(v, b)), normal)
  }

  /** Ideal MHD with divergence cleaning, written once for every normal. */
  function IdealFlux(gamma: real, ch: real, w: Primitive, normal: Vec): State
    requires gamma != 1.0
  {
    State(w.rho * Inner(VelocityOf(w), normal),
          StressFlux(w, w.vX, w.bX, normal.x, normal),
          StressFlux(w, w.vY, w.bY, normal.y, normal),
          StressFlux(w, w.vZ, w.bZ, normal.z, normal),
          FieldFlux(w, w.vX, w.bX, normal.x, normal),
          FieldFlux(w, w.vY, w.bY, normal.y, normal),
          FieldFlux(w, w.vZ, w.bZ, normal.z, normal),
          PowerFlux(gamma, w, normal),
          ch * ch * Inner(FieldOf(w), normal))
  }

  lemma StressAgrees(w: Primitive, m: real, v: real, b: real, vn: real, bn: real, n: real, normal: Vec)
    requires m == Momentum(w.rho, v) && Inner(VelocityOf(w), normal) == vn && Inner(FieldOf(w), normal) == bn
    ensures n == 0.0 ==> Tension(m, vn, bn, b) == StressFlux(w, v, b, n, normal)
    ensures n == 1.0 && b == bn ==>
              NormalStress(m, vn, w.p + 0.5 * SumSquares(w.bX, w.bY, w.bZ), bn) == StressFlux(w, v, b, n, normal)
  {
    var field := FieldOf(w);
    assert Inner(field, field) == SumSquares(w.bX, w.bY, w.bZ);
    hide Inner;
    hide SumSquares;
  }

  lemma InductionAgrees(w: Primitive, v: real, b: real, vn: real, bn: real, n: real, normal: Vec)
    requires Inner(VelocityOf(w), normal) == vn && Inner(FieldOf(w), normal) == bn
    ensures n == 0.0 ==> Induction(vn, b, v, bn) == FieldFlux(w, v, b, n, normal)
    ensures n == 1.0 && v == vn && b == bn ==> w.psi == FieldFlux(w, v, b, n, normal)
  {
    hide Inner;
  }

  /** The Poynting vector of ideal MHD: B x (v x B) = B^2 v - (v . B) B. */
  lemma Poynting(v: Vec, b: Vec, n: Vec)
    ensures Inner(Cross(b, Cross(v, b)), n) == Inner(b, b) * Inner(v, n) - Inner(v, b) * Inner(b, n)
  {
    hide Cross;
    hide Inner;
    TripleCross(v, b, Inner(b, b), Inner(v, b));
    Distribute(Cross(b, Cross(v, b)), v, b, n, Inner(b, b), Inner(v, b));
  }

  lemma TripleCross(v: Vec, b: Vec, k: real, l: real)
    requires k == Inner(b, b) && l == Inner(v, b)
    ensures var c := Cross(b, Cross(v, b));
            c.x == Combine(k, v.x, l, b.x) && c.y == Combine(k, v.y, l, b.y) && c.z == Combine(k, v.z, l, b.z)
  {
    TripleProduct(b.x, b.y, b.z, v.x, v.y, v.z, k, l);
    TripleProduct(b.y, b.z, b.x, v.y, v.z, v.x, k, l);
    TripleProduct(b.z, b.x, b.y, v.z, v.x, v.y, k, l);
    hide Combine;
    hide Minor;
    hide Inner;
  }

  function Combine(k: real, x: real, l: real, y: real): real {
    k * x - l * y
  }

  lemma TripleProduct(b1: real, b2: real, b3: real, v1: real, v2: real, v3: real, k: real, l: real)
    requires k == b1 * b1 + b2 * b2 + b3 * b3 && l == v1 * b1 + v2 * b2 + v3 * b3
    ensures Minor(b2, b3, Minor(v3, v1, b3, b1), Minor(v1, v2, b1, b2)) == Combine(k, v1, l, b1)
  {
  }

  lemma Distribute(c: Vec, v: Vec, b: Vec, n: Vec, k: real, l: real)
    requires c.x == Combine(k, v.x, l, b.x) && c.y == Combine(k, v.y, l, b.y) && c.z == Combine(k, v.z, l, b.z)
    ensures Inner(c, n) == k * Inner(v, n) - l * Inner(b, n)
  {
  }

  lemma EnergyAgrees(gamma: real, w: Primitive, e: real, vn: real, bn: real, normal: Vec)
    requires 1.0 < gamma && Inner(VelocityOf(w), normal) == vn && Inner(FieldOf(w), normal) == bn
    requires e == TotalEnergy(gamma, w.p, w.rho, SumSquares(w.vX, w.vY, w.vZ), SumSquares(w.bX, w.bY, w.bZ))
    ensures EnergyFlux(e, w.p + 0.5 * SumSquares(w.bX, w.bY, w.bZ), vn, Dot(w), bn) == PowerFlux(gamma, w, normal)
  {
    var v, b := VelocityOf(w), FieldOf(w);
    Poynting(v, b, normal);
    assert Inner(v, v) == SumSquares(w.vX, w.vY, w.vZ) && Inner(b, b) == SumSquares(w.bX, w.bY, w.bZ) &&
        Inner(v, b) == Dot(w);
    var q, v2, b2 := w.p / (gamma - 1.0), SumSquares(w.vX, w.vY, w.vZ), SumSquares(w.bX, w.bY, w.bZ);
    assert q * (gamma - 1.0) == w.p;
    hide Inner;
    hide Cross;
    hide SumSquares;
    hide Dot;
    EnthalpyScalar(gamma, q, w.p, w.rho, v2, b2, vn, Dot(w), bn);
  }

  lemma EnthalpyScalar(gamma: real, q: real, pr: real, rho: real, v2: real, b2: real, vn: real, vb: real, bn: real)
    requires q * (gamma - 1.0) == pr
    ensures (q + 0.5 * rho * v2 + 0.5 * b2 + (pr + 0.5 * b2)) * vn - vb * bn
         == (0.5 * rho * v2 + gamma * q) * vn + (b2 * vn - vb * bn)
  {
    assert gamma * q == q + pr;
  }

  /** On admissible cells both branches of `flux` are the one formula of ideal MHD, taken along x
      and along y: symmetric stress, antisymmetric induction, enthalpy plus Poynting flux. */
  lemma FluxIsIdealMhd(p: Params, s: State, dir: Direction)
    requires Admissible(p, s)
    ensures Flux(p, s, dir) == IdealFlux(p.gamma, p.glmCh, ToPrimitive(p, s), Normal(dir))
  {
    var w := ToPrimitive(p, s);
    RegularizeFixesExactlyAdmissible(p, s);
    AlongNormal(w, dir);
    var vn, bn := NormalVelocity(w, dir), if dir == X then w.bX else w.bY;
    var n := Normal(dir);
    assert s == ToConserved(p, w) && w.rho == s.rho;
    assert s.mX == Momentum(w.rho, w.vX) && s.mY == Momentum(w.rho, w.vY) && s.mZ == Momentum(w.rho, w.vZ);
    hide ToPrimitive;
    hide SumSquares;
    hide Dot;
    hide Inner;
    StressAgrees(w, s.mX, w.vX, w.bX, vn, bn, n.x, n);
    StressAgrees(w, s.mY, w.vY, w.bY, vn, bn, n.y, n);
    StressAgrees(w, s.mZ, w.vZ, w.bZ, vn, bn, n.z, n);
    InductionAgrees(w, w.vX, w.bX, vn, bn, n.x, n);
    InductionAgrees(w, w.vY, w.bY, vn, bn, n.y, n);
    InductionAgrees(w, w.vZ, w.bZ, vn, bn, n.z, n);
    EnergyAgrees(p.gamma, w, s.e, vn, bn, n);
    hide StressFlux;
    hide FieldFlux;
    hide PowerFlux;
    hide Tension;
    hide NormalStress;
    hide Induction;
    hide EnergyFlux;
    hide TotalEnergy;
  }

  lemma AlongNormal(w: Primitive, dir: Direction)
    ensures Inner(VelocityOf(w), Normal(dir)) == NormalVelocity(w, dir)
    ensures Inner(FieldOf(w), Normal(dir)) == if dir == X then w.bX else w.bY
  {
  }

  // ----- The HLL flux, from its intermediate state -----

  /** The average state inside the wave fan. */
  function StarState(sl: real, sr: real, fl: real, fr: real, ul: real, ur: real): real
    requires sl < sr
  {
    (sr * ur - sl * ul - (fr - fl)) * (1.0 / (sr - sl))
  }

  /** The HLL flux satisfies the jump conditions across both waves of the fan. */
  lemma HllSatisfiesJumps(sl: real, sr: real, fl: real, fr: real, ul: real, ur: real)
    requires sl < sr
    ensures HllFlux(sl, sr, fl, fr, ul, ur) == fl + sl * (StarState(sl, sr, fl, fr, ul, ur) - ul)
    ensures HllFlux(sl, sr, fl, fr, ul, ur) == fr + sr * (StarState(sl, sr, fl, fr, ul, ur) - ur)
  {
    var d := sr - sl;
    var inv := 1.0 / d;
    assert inv * d == 1.0;
    Jump(sl, sr, fl, fr, ul, ur, inv);
  }

  lemma Jump(sl: real, sr: real, fl: real, fr: real, ul: real, ur: real, inv: real)
    requires inv * (sr - sl) == 1.0
    ensures var star := (sr * ur - sl * ul - (fr - fl)) * inv;
            var f := (sr * fl - sl * fr + sl * sr * (ur - ul)) * inv;
            f == fl + sl * (star - ul) && f == fr + sr * (star - ur)
  {
    var top := sr * ur - sl * ul - (fr - fl);
    assert fl == fl * (inv * (sr - sl)) && ul == ul * (inv * (sr - sl));
    assert fr == fr * (inv * (sr - sl)) && ur == ur * (inv * (sr - sl));
    assert sr * fl - sl * fr + sl * sr * (ur - ul) == fl * (sr - sl) + sl * (top - ul * (sr - sl));
    assert sr * fl - sl * fr + sl * sr * (ur - ul) == fr * (sr - sl) + sr * (top - ur * (sr - sl));
  }

  /** The flux follows from the jumps across the two waves of a fan around one state. */
  predicate Jumps(f: State, sl: real, sr: real, fl: State, fr: State, l: State, m: State, r: State) {
    f == Add(fl, Scale(sl, Sub(m, l))) && f == Add(fr, Scale(sr, Sub(m, r)))
  }

  lemma HllStateJumps(sl: real, sr: real, fl: State, fr: State, l: State, r: State) returns (m: State)
    requires sl < sr
    ensures Jumps(HllState(sl, sr, fl, fr, l, r), sl, sr, fl, fr, l, m, r)
  {
    m := State(StarState(sl, sr, fl.rho, fr.rho, l.rho, r.rho), StarState(sl, sr, fl.mX, fr.mX, l.mX, r.mX),
               StarState(sl, sr, fl.mY, fr.mY, l.mY, r.mY), StarState(sl, sr, fl.mZ, fr.mZ, l.mZ, r.mZ),
               StarState(sl, sr, fl.bX, fr.bX, l.bX, r.bX), StarState(sl, sr, fl.bY, fr.bY, l.bY, r.bY),
               StarState(sl, sr, fl.bZ, fr.bZ, l.bZ, r.bZ), StarState(sl, sr, fl.e, fr.e, l.e, r.e),
               StarState(sl, sr, fl.psi, fr.psi, l.psi, r.psi));
    JumpTimes(sl, sr, fl.rho, fr.rho, l.rho, r.rho);
    JumpTimes(sl, sr, fl.mX, fr.mX, l.mX, r.mX);
    JumpTimes(sl, sr, fl.mY, fr.mY, l.mY, r.mY);
    JumpTimes(sl, sr, fl.mZ, fr.mZ, l.mZ, r.mZ);
    JumpTimes(sl, sr, fl.bX, fr.bX, l.bX, r.bX);
    JumpTimes(sl, sr, fl.bY, fr.bY, l.bY, r.bY);
    JumpTimes(sl, sr, fl.bZ, fr.bZ, l.bZ, r.bZ);
    JumpTimes(sl, sr, fl.e, fr.e, l.e, r.e);
    JumpTimes(sl, sr, fl.psi, fr.psi, l.psi, r.psi);
    hide HllFlux;
    hide StarState;
    hide Times;
  }

  lemma JumpTimes(sl: real, sr: real, fl: real, fr: real, ul: real, ur: real)
    requires sl < sr
    ensures HllFlux(sl, sr, fl, fr, ul, ur) == fl + Times(sl, StarState(sl, sr, fl, fr, ul, ur) - ul)
    ensures HllFlux(sl, sr, fl, fr, ul, ur) == fr + Times(sr, StarState(sl, sr, fl, fr, ul, ur) - ur)
  {
    HllSatisfiesJumps(sl, sr, fl, fr, ul, ur);
    hide HllFlux;
    hide StarState;
  }

  /** The Rusanov flux is the HLL flux of the symmetric fan. */
  lemma RusanovIsHll(a: real, fl: real, fr: real, ul: real, ur: real)
    requires 0.0 < a
    ensures RusanovFlux(a, fl, fr, ul, ur) == HllFlux(-a, a, fl, fr, ul, ur)
  {
    var inv := 1.0 / (a - (-a));
    assert inv * a == 0.5;
    var x := fl + fr - a * (ur - ul);
    assert a * fl - (-a) * fr + (-a) * a * (ur - ul) == a * x;
    assert (a * x) * inv == (inv * a) * x;
  }

  /** The HLL solver: the left flux if no wave runs left, else the right one if none runs right, else
      the flux given by the jumps across both outer waves around one state. */
  lemma HllIs(p: Params, l: State, r: State, dir: Direction) returns (m: State)
    requires p.flux == HLL
    ensures var f, fl, fr := RiemannFlux(p, l, r, dir), Flux(p, l, dir), Flux(p, r, dir);
            var sl, sr := SlowestWave(p, l, r, dir), FastestWave(p, l, r, dir);
            && (0.0 <= sl ==> f == fl)
            && (sl < 0.0 && sr <= 0.0 ==> f == fr)
            && (sl < 0.0 < sr ==> Jumps(f, sl, sr, fl, fr, l, m, r))
  {
    hide Flux;
    hide ToPrimitive;
    hide FastMagnetosonic;
    hide Jumps;
    hide HllState;
    m := l;
    var sl, sr := SlowestWave(p, l, r, dir), FastestWave(p, l, r, dir);
    if sl < 0.0 < sr {
      m := HllStateJumps(sl, sr, Flux(p, l, dir), Flux(p, r, dir), l, r);
    }
  }

  /** The Rusanov solver: the same jumps, across waves at plus and minus the larger signal speed; the
      mean of the two fluxes if that is zero. */
  lemma RusanovIs(p: Params, l: State, r: State, dir: Direction) returns (m: State)
    requires p.flux == Rusanov
    ensures var f, fl, fr := RiemannFlux(p, l, r, dir), Flux(p, l, dir), Flux(p, r, dir);
            var a := Max(SignalSpeed(p, l, dir), SignalSpeed(p, r, dir));
            && (0.0 < a ==> Jumps(f, -a, a, fl, fr, l, m, r))
            && (a == 0.0 ==> Add(f, f) == Add(fl, fr))
  {
    hide Flux;
    hide SignalSpeed;
    hide Jumps;
    m := l;
    var fl, fr := Flux(p, l, dir), Flux(p, r, dir);
    var a := Max(SignalSpeed(p, l, dir), SignalSpeed(p, r, dir));
    if 0.0 < a {
      m := HllStateJumps(-a, a, fl, fr, l, r);
      RusanovStateIsHll(a, fl, fr, l, r);
    }
    hide RusanovState;
    hide HllState;
    if a == 0.0 { RusanovMean(fl, fr, l, r); }
  }

  lemma RusanovStateIsHll(a: real, fl: State, fr: State, l: State, r: State)
    requires 0.0 < a
    ensures RusanovState(a, fl, fr, l, r) == HllState(-a, a, fl, fr, l, r)
  {
    RusanovIsHll(a, fl.rho, fr.rho, l.rho, r.rho);
    RusanovIsHll(a, fl.mX, fr.mX, l.mX, r.mX);
    RusanovIsHll(a, fl.mY, fr.mY, l.mY, r.mY);
    RusanovIsHll(a, fl.mZ, fr.mZ, l.mZ, r.mZ);
    RusanovIsHll(a, fl.bX, fr.bX, l.bX, r.bX);
    RusanovIsHll(a, fl.bY, fr.bY, l.bY, r.bY);
    RusanovIsHll(a, fl.bZ, fr.bZ, l.bZ, r.bZ);
    RusanovIsHll(a, fl.e, fr.e, l.e, r.e);
    RusanovIsHll(a, fl.psi, fr.psi, l.psi, r.psi);
    hide RusanovFlux;
    hide HllFlux;
  }

  lemma RusanovMean(fl: State, fr: State, l: State, r: State)
    ensures var f := RusanovState(0.0, fl, fr, l, r);
            Add(f, f) == Add(fl, fr)
  {
  }

  // ----- Reflection -----

  /** The cell seen in a mirror normal to `dir`. */
  function Reflect(s: State, dir: Direction): State {
    if dir == X then s.(mX := -s.mX, bX := -s.bX) else s.(mY := -s.mY, bY := -s.bY)
  }

  function ReflectPrimitive(w: Primitive, dir: Direction): Primitive {
    if dir == X then w.(vX := -w.vX, bX := -w.bX) else w.(vY := -w.vY, bY := -w.bY)
  }

  function Negate(s: State): State {
    State(-s.rho, -s.mX, -s.mY, -s.mZ, -s.bX, -s.bY, -s.bZ, -s.e, -s.psi)
  }

  lemma SumSquaresEven(x: real, y: real, z: real)
    ensures SumSquares(-x, y, z) == SumSquares(x, y, z) && SumSquares(x, -y, z) == SumSquares(x, y, z)
  {
  }

  lemma VelocityOdd(m: real, rho: real)
    requires 0.0 < rho
    ensures Velocity(-m, rho) == -Velocity(m, rho)
  {
  }

  lemma PrimitiveReflects(p: Params, s: State, dir: Direction)
    ensures ToPrimitive(p, Reflect(s, dir)) == ReflectPrimitive(ToPrimitive(p, s), dir)
  {
    var w := ToPrimitive(p, s);
    SumSquaresEven(w.vX, w.vY, w.vZ);
    SumSquaresEven(s.bX, s.bY, s.bZ);
    VelocityOdd(s.mX, w.rho);
    VelocityOdd(s.mY, w.rho);
    hide SumSquares;
    hide Velocity;
    hide ThermalPressure;
  }

  lemma TermsReflect(m: real, v: real, t: real, b: real, c: real, e: real, d: real)
    ensures Tension(m, -v, -b, c) == -Tension(m, v, b, c)
    ensures NormalStress(-m, -v, t, -b) == NormalStress(m, v, t, b)
    ensures Induction(-v, b, m, -c) == -Induction(v, b, m, c)
    ensures EnergyFlux(e, t, -v, d, -b) == -EnergyFlux(e, t, v, d, b)
    ensures CleaningFlux(c, -b) == -CleaningFlux(c, b)
  {
  }

  lemma DotEven(w: Primitive, dir: Direction)
    ensures Dot(ReflectPrimitive(w, dir)) == Dot(w)
  {
  }

  /** Seen in the mirror, the flux runs the other way. */
  lemma FluxReflects(p: Params, s: State, dir: Direction)
    ensures Flux(p, Reflect(s, dir), dir) == Negate(Reflect(Flux(p, s, dir), dir))
  {
    var w := ToPrimitive(p, s);
    PrimitiveReflects(p, s, dir);
    DotEven(w, dir);
    SumSquaresEven(w.bX, w.bY, w.bZ);
    var t := w.p + 0.5 * SumSquares(w.bX, w.bY, w.bZ);
    hide ToPrimitive;
    hide SumSquares;
    hide Dot;
    if dir == X {
      TermsReflect(s.mX, w.vX, t, w.bX, p.glmCh, s.e, Dot(w));
      TermsReflect(s.mY, w.vX, t, w.bX, w.bY, s.e, Dot(w));
      TermsReflect(s.mZ, w.vX, t, w.bX, w.bZ, s.e, Dot(w));
      TermsReflect(w.vY, w.vX, t, w.bY, w.bX, s.e, Dot(w));
      TermsReflect(w.vZ, w.vX, t, w.bZ, w.bX, s.e, Dot(w));
    } else {
      TermsReflect(s.mY, w.vY, t, w.bY, p.glmCh, s.e, Dot(w));
      TermsReflect(s.mX, w.vY, t, w.bY, w.bX, s.e, Dot(w));
      TermsReflect(s.mZ, w.vY, t, w.bY, w.bZ, s.e, Dot(w));
      TermsReflect(w.vX, w.vY, t, w.bX, w.bY, s.e, Dot(w));
      TermsReflect(w.vZ, w.vY, t, w.bZ, w.bY, s.e, Dot(w));
    }
    hide Tension;
    hide NormalStress;
    hide Induction;
    hide EnergyFlux;
    hide CleaningFlux;
  }

  lemma FastSpeedEven(sqrt: real -> real, gamma: real, rho: real, pr: real, bb: real, bn: real)
    ensures FastSpeed(sqrt, gamma, rho, pr, bb, -bn) == FastSpeed(sqrt, gamma, rho, pr, bb, bn)
  {
    assert Times(-bn, -bn) == Times(bn, bn);
    hide Times;
    hide PerMass;
    hide Discriminant;
  }

  lemma SpeedsReflect(p: Params, s: State, dir: Direction)
    ensures var w, w' := ToPrimitive(p, s), ToPrimitive(p, Reflect(s, dir));
            && NormalVelocity(w', dir) == -NormalVelocity(w, dir)
            && FastMagnetosonic(p, w', dir) == FastMagnetosonic(p, w, dir)
            && SignalSpeed(p, Reflect(s, dir), dir) == SignalSpeed(p, s, dir)
  {
    var w := ToPrimitive(p, s);
    PrimitiveReflects(p, s, dir);
    SumSquaresEven(w.bX, w.bY, w.bZ);
    FastSpeedEven(p.sqrt, p.gamma, w.rho, w.p, SumSquares(w.bX, w.bY, w.bZ), if dir == X then w.bX else w.bY);
    hide ToPrimitive;
    hide SumSquares;
    hide FastSpeed;
  }

  lemma SolversReflect(a: real, sl: real, sr: real, fl: real, fr: real, ul: real, ur: real)
    ensures RusanovFlux(a, -fr, -fl, ur, ul) == -RusanovFlux(a, fl, fr, ul, ur)
    ensures RusanovFlux(a, fr, fl, -ur, -ul) == RusanovFlux(a, fl, fr, ul, ur)
    ensures sl < sr ==> HllFlux(-sr, -sl, -fr, -fl, ur, ul) == -HllFlux(sl, sr, fl, fr, ul, ur)
    ensures sl < sr ==> HllFlux(-sr, -sl, fr, fl, -ur, -ul) == HllFlux(sl, sr, fl, fr, ul, ur)
  {
    if sl < sr {
      var inv := 1.0 / (sr - sl);
      assert -sl - (-sr) == sr - sl;
      assert (-sl) * (-fr) - (-sr) * (-fl) + (-sr) * (-sl) * (ul - ur) == -(sr * fl - sl * fr + sl * sr * (ur - ul));
      assert (-sl) * fr - (-sr) * fl + (-sr) * (-sl) * (-ul - (-ur)) == sr * fl - sl * fr + sl * sr * (ur - ul);
    }
  }

  /** The outer wave speeds of a face. */
  function SlowestWave(p: Params, l: State, r: State, dir: Direction): real {
    var wl, wr := ToPrimitive(p, l), ToPrimitive(p, r);
    Min(NormalVelocity(wl, dir) - FastMagnetosonic(p, wl, dir), NormalVelocity(wr, dir) - FastMagnetosonic(p, wr, dir))
  }

  function FastestWave(p: Params, l: State, r: State, dir: Direction): real {
    var wl, wr := ToPrimitive(p, l), ToPrimitive(p, r);
    Max(NormalVelocity(wl, dir) + FastMagnetosonic(p, wl, dir), NormalVelocity(wr, dir) + FastMagnetosonic(p, wr, dir))
  }

  lemma NegateReflectInjective(a: State, b: State, dir: Direction)
    requires Negate(Reflect(a, dir)) == Negate(Reflect(b, dir))
    ensures a == b
  {
  }

  /** Neither solver prefers a side: exchanging and reflecting the two states reverses the flux.
      The exception is exactly HLL with both outer waves at rest, where it picks the left flux,
      unless the two fluxes are the same. */
  lemma RiemannReflects(p: Params, l: State, r: State, dir: Direction)
    ensures RiemannFlux(p, Reflect(r, dir), Reflect(l, dir), dir) == Negate(Reflect(RiemannFlux(p, l, r, dir), dir))
       <==> !(p.flux == HLL && SlowestWave(p, l, r, dir) >= 0.0 >= FastestWave(p, l, r, dir))
            || Flux(p, l, dir) == Flux(p, r, dir)
  {
    FluxReflects(p, l, dir);
    FluxReflects(p, r, dir);
    SpeedsReflect(p, l, dir);
    SpeedsReflect(p, r, dir);
    var fl, fr := Flux(p, l, dir), Flux(p, r, dir);
    var sl, sr := SlowestWave(p, l, r, dir), FastestWave(p, l, r, dir);
    var a := Max(SignalSpeed(p, l, dir), SignalSpeed(p, r, dir));
    hide Flux;
    hide ToPrimitive;
    hide FastMagnetosonic;
    hide SignalSpeed;
    SolversReflect(a, sl, sr, fl.rho, fr.rho, l.rho, r.rho);
    SolversReflect(a, sl, sr, fl.mX, fr.mX, l.mX, r.mX);
    SolversReflect(a, sl, sr, fl.mY, fr.mY, l.mY, r.mY);
    SolversReflect(a, sl, sr, fl.mZ, fr.mZ, l.mZ, r.mZ);
    SolversReflect(a, sl, sr, fl.bX, fr.bX, l.bX, r.bX);
    SolversReflect(a, sl, sr, fl.bY, fr.bY, l.bY, r.bY);
    SolversReflect(a, sl, sr, fl.bZ, fr.bZ, l.bZ, r.bZ);
    SolversReflect(a, sl, sr, fl.e, fr.e, l.e, r.e);
    SolversReflect(a, sl, sr, fl.psi, fr.psi, l.psi, r.psi);
    hide RusanovFlux;
    hide HllFlux;
    if p.flux == HLL && sl >= 0.0 >= sr {
      if Negate(Reflect(fr, dir)) == Negate(Reflect(fl, dir)) {
        NegateReflectInjective(fr, fl, dir);
      }
    }
  }

  /** A cell at rest along the normal, with neither pressure nor field. */
  predicate Inert(p: Params, s: State, dir: Direction) {
    var w := ToPrimitive(p, s);
    (if dir == X then s.mX else s.mY) == 0.0 && w.p == 0.0 && s.bX == 0.0 && s.bY == 0.0 && s.bZ == 0.0
  }

  /** With a true root the fast speed vanishes exactly without pressure and field. */
  lemma FastSpeedVanishes(p: Params, rho: real, pr: real, bb: real, bn: real)
    requires SquareRoot(p) && 0.0 < rho && 0.0 <= pr && 0.0 <= bb && Times(bn, bn) <= bb
    ensures 0.0 <= FastSpeed(p.sqrt, p.gamma, rho, pr, bb, bn)
    ensures FastSpeed(p.sqrt, p.gamma, rho, pr, bb, bn) == 0.0 <==> pr == 0.0 && bb == 0.0
  {
    var floored := Max(rho, 0.000000000000000000000000000001);
    var inv := 1.0 / floored;
    PositiveQuotient(1.0, floored);
    var a2, b2, bn2 := PerMass(p.gamma * Max(pr, 0.0), inv), PerMass(bb, inv), PerMass(Times(bn, bn), inv);
    ProductVanishes(p.gamma, pr);
    ProductVanishes(p.gamma * pr, inv);
    ProductVanishes(bb, inv);
    assert 0.0 <= a2 && 0.0 <= b2 && (a2 == 0.0 <==> pr == 0.0) && (b2 == 0.0 <==> bb == 0.0);
    hide PerMass;
    hide Times;
    var disc := Max(Discriminant(a2, b2, bn2), 0.0);
    if a2 == 0.0 && b2 == 0.0 {
      assert Discriminant(a2, b2, bn2) == 0.0;
    }
    hide Discriminant;
    RootVanishes(p, disc);
    var cf2 := 0.5 * ((a2 + b2) + p.sqrt(disc));
    RootVanishes(p, Max(cf2, 0.0));
  }

  lemma ProductVanishes(a: real, b: real)
    ensures 0.0 <= a && 0.0 <= b ==> 0.0 <= a * b
    ensures a != 0.0 ==> (a * b == 0.0 <==> b == 0.0)
    ensures b != 0.0 ==> (a * b == 0.0 <==> a == 0.0)
  {
  }

  lemma RootVanishes(p: Params, x: real)
    requires SquareRoot(p) && 0.0 <= x
    ensures 0.0 <= p.sqrt(x) && (p.sqrt(x) == 0.0 <==> x == 0.0)
  {
    SquareVanishes(p.sqrt(x));
  }

  lemma SumSquaresVanishes(x: real, y: real, z: real)
    ensures 0.0 <= SumSquares(x, y, z)
    ensures SumSquares(x, y, z) == 0.0 <==> x == 0.0 && y == 0.0 && z == 0.0
  {
    SquareVanishes(x);
    SquareVanishes(y);
    SquareVanishes(z);
  }

  lemma SquareVanishes(x: real)
    ensures 0.0 <= x * x && (x * x == 0.0 <==> x == 0.0)
  {
    ProductVanishes(x, x);
    ProductVanishes(-x, -x);
    assert x * x == (-x) * (-x);
    if x == 0.0 { assert x * x == 0.0; }
  }

  lemma VelocityVanishes(m: real, rho: real)
    requires 0.0 < rho
    ensures Velocity(m, rho) == 0.0 <==> m == 0.0
  {
  }

  /** A cell's two wave speeds enclose its velocity, and meet at rest exactly in inert cells. */
  lemma InertWaves(p: Params, s: State, dir: Direction)
    requires SquareRoot(p)
    ensures var w := ToPrimitive(p, s);
            var v, c := NormalVelocity(w, dir), FastMagnetosonic(p, w, dir);
            0.0 <= c && (v == 0.0 && c == 0.0 <==> Inert(p, s, dir))
  {
    var w := ToPrimitive(p, s);
    SumSquaresVanishes(w.bX, w.bY, w.bZ);
    SquareInSum(w.bX, w.bY, w.bZ);
    VelocityVanishes(s.mX, w.rho);
    VelocityVanishes(s.mY, w.rho);
    hide SumSquares;
    hide Velocity;
    hide ThermalPressure;
    FastSpeedVanishes(p, w.rho, w.p, SumSquares(w.bX, w.bY, w.bZ), if dir == X then w.bX else w.bY);
    hide FastSpeed;
  }

  /** An inert cell carries nothing through a face but its cleaning potential. */
  lemma InertFlux(p: Params, s: State, dir: Direction)
    requires Inert(p, s, dir)
    ensures Flux(p, s, dir) == if dir == X then ZERO.(bX := s.psi) else ZERO.(bY := s.psi)
  {
    var w := ToPrimitive(p, s);
    VelocityVanishes(s.mX, w.rho);
    VelocityVanishes(s.mY, w.rho);
    SumSquaresVanishes(w.bX, w.bY, w.bZ);
    assert Dot(w) == 0.0;
    hide SumSquares;
    hide Velocity;
    hide ThermalPressure;
    hide Dot;
  }

  /** With a true root, HLL fails to reflect exactly between two inert cells whose cleaning
      potentials differ. */
  lemma ReflectionFailsIffInert(p: Params, l: State, r: State, dir: Direction)
    requires SquareRoot(p)
    ensures RiemannFlux(p, Reflect(r, dir), Reflect(l, dir), dir) != Negate(Reflect(RiemannFlux(p, l, r, dir), dir))
       <==> p.flux == HLL && Inert(p, l, dir) && Inert(p, r, dir) && l.psi != r.psi
  {
    RiemannReflects(p, l, r, dir);
    InertWaves(p, l, dir);
    InertWaves(p, r, dir);
    if Inert(p, l, dir) && Inert(p, r, dir) {
      InertFlux(p, l, dir);
      InertFlux(p, r, dir);
    }
    hide Inert;
    hide Flux;
    hide RiemannFlux;
    hide ToPrimitive;
    hide FastMagnetosonic;
  }

  /** A positive pressure floor, such as the default, rules the exception out. */
  lemma PressureFloorReflects(p: Params, l: State, r: State, dir: Direction)
    requires SquareRoot(p) && 0.0 < p.pFloor
    ensures RiemannFlux(p, Reflect(r, dir), Reflect(l, dir), dir) == Negate(Reflect(RiemannFlux(p, l, r, dir), dir))
  {
    ReflectionFailsIffInert(p, l, r, dir);
    hide RiemannFlux;
    hide ThermalPressure;
  }

  /** Without one, two cells at rest that differ in psi alone are an exception. */
  lemma InertCellsDoNotReflect(p: Params) returns (l: State, r: State)
    requires SquareRoot(p) && p.pFloor == 0.0 && p.flux == HLL
    ensures Admissible(p, l) && Admissible(p, r) && r == l.(psi := 1.0)
    ensures RiemannFlux(p, Reflect(r, X), Reflect(l, X), X) != Negate(Reflect(RiemannFlux(p, l, r, X), X))
  {
    l := ZERO.(rho := p.rhoFloor);
    r := l.(psi := 1.0);
    StillCell(p, 0.0);
    StillCell(p, 1.0);
    ReflectionFailsIffInert(p, l, r, X);
    hide RiemannFlux;
    hide Inert;
    hide Admissible;
  }

  lemma StillCell(p: Params, psi: real)
    requires p.pFloor == 0.0
    ensures var s := ZERO.(rho := p.rhoFloor, psi := psi);
            Admissible(p, s) && Inert(p, s, X)
  {
    SumSquaresVanishes(0.0, 0.0, 0.0);
    VelocityVanishes(0.0, p.rhoFloor);
    NoPressure(p.gamma, p.rhoFloor);
    hide SumSquares;
    hide Velocity;
    hide ThermalPressure;
  }

  lemma NoPressure(gamma: real, rho: real)
    ensures ThermalPressure(gamma, 0.0, rho, 0.0, 0.0) == 0.0
  {
  }
}
