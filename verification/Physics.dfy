/** The pure part of the solver: conversions, fluxes, reconstruction, and what holds of one face. */
module Physics {
  import opened States

  datatype Direction = X | Y

  function SumSquares(x: real, y: real, z: real): real {
    x * x + y * y + z * z
  }

  // Every product and quotient of the scheme sits in a function of scalars, so that proofs about
  // whole cells can work by substitution.

  function Momentum(rho: real, v: real): real {
    rho * v
  }

  function Velocity(m: real, rho: real): real
    requires rho != 0.0
  {
    m / rho
  }

  function ThermalPressure(gamma: real, e: real, rho: real, v2: real, b2: real): real {
    var kin := 0.5 * rho * v2;
    var mag := 0.5 * b2;
    (gamma - 1.0) * (e - kin - mag)
  }

  function TotalEnergy(gamma: real, pr: real, rho: real, v2: real, b2: real): real
    requires gamma != 1.0
  {
    pr / (gamma - 1.0) + 0.5 * rho * v2 + 0.5 * b2
  }

  function ToPrimitive(p: Params, s: State): Primitive {
    var rho := Max(s.rho, p.rhoFloor);
    var vx := Velocity(s.mX, rho);
    var vy := Velocity(s.mY, rho);
    var vz := Velocity(s.mZ, rho);
    var thermal := ThermalPressure(p.gamma, s.e, rho, SumSquares(vx, vy, vz), SumSquares(s.bX, s.bY, s.bZ));
    Primitive(rho, vx, vy, vz, s.bX, s.bY, s.bZ, Max(thermal, p.pFloor), s.psi)
  }

  function ToConserved(p: Params, w: Primitive): State {
    var rho := Max(w.rho, p.rhoFloor);
    var pr := Max(w.p, p.pFloor);
    State(rho, Momentum(rho, w.vX), Momentum(rho, w.vY), Momentum(rho, w.vZ), w.bX, w.bY, w.bZ,
          TotalEnergy(p.gamma, pr, rho, SumSquares(w.vX, w.vY, w.vZ), SumSquares(w.bX, w.bY, w.bZ)),
          w.psi)
  }

  /** The floor projection: through the primitive variables and back. */
  function Regularize(p: Params, s: State): State {
    ToConserved(p, ToPrimitive(p, s))
  }

  /** A cell no floor touches. */
  predicate Admissible(p: Params, s: State) {
    && p.rhoFloor <= s.rho
    && p.pFloor <= ThermalPressure(p.gamma, s.e, s.rho,
                                   SumSquares(Velocity(s.mX, s.rho), Velocity(s.mY, s.rho), Velocity(s.mZ, s.rho)),
                                   SumSquares(s.bX, s.bY, s.bZ))
  }

  lemma MomentumVelocity(m: real, rho: real)
    requires 0.0 < rho
    ensures Momentum(rho, Velocity(m, rho)) == m
  {
  }

  lemma VelocityMomentum(v: real, rho: real)
    requires 0.0 < rho
    ensures Velocity(Momentum(rho, v), rho) == v
  {
  }

  lemma EnergyPressure(gamma: real, e: real, pr: real, rho: real, v2: real, b2: real)
    requires 1.0 < gamma
    ensures ThermalPressure(gamma, TotalEnergy(gamma, pr, rho, v2, b2), rho, v2, b2) == pr
    ensures TotalEnergy(gamma, ThermalPressure(gamma, e, rho, v2, b2), rho, v2, b2) == e
  {
    var g := gamma - 1.0;
    assert g * (pr / g) == pr;
    var eint := e - 0.5 * rho * v2 - 0.5 * b2;
    assert (g * eint) / g == eint;
  }

  lemma EnergyMonotone(gamma: real, pr: real, pr': real, rho: real, v2: real, b2: real)
    requires 1.0 < gamma && pr <= pr'
    ensures TotalEnergy(gamma, pr, rho, v2, b2) <= TotalEnergy(gamma, pr', rho, v2, b2)
    ensures pr < pr' ==> TotalEnergy(gamma, pr, rho, v2, b2) < TotalEnergy(gamma, pr', rho, v2, b2)
  {
    var g := gamma - 1.0;
    assert pr' / g - pr / g == (pr' - pr) / g;
    if pr < pr' { PositiveQuotient(pr' - pr, g); }
  }

  /** Primitive to conserved and back gives everything back but what lies below a floor, which comes
      back at the floor. */
  lemma PrimitiveRoundTrip(p: Params, w: Primitive)
    ensures ToPrimitive(p, ToConserved(p, w)) == w.(rho := Max(w.rho, p.rhoFloor), p := Max(w.p, p.pFloor))
  {
    var rho, pr := Max(w.rho, p.rhoFloor), Max(w.p, p.pFloor);
    VelocityMomentum(w.vX, rho);
    VelocityMomentum(w.vY, rho);
    VelocityMomentum(w.vZ, rho);
    EnergyPressure(p.gamma, 0.0, pr, rho, SumSquares(w.vX, w.vY, w.vZ), SumSquares(w.bX, w.bY, w.bZ));
    hide SumSquares;
    hide Velocity;
    hide Momentum;
    hide ThermalPressure;
    hide TotalEnergy;
  }

  /** The projection keeps momentum, field and psi, only raises density and energy, and lands in
      the admissible set. */
  lemma RegularizeProjects(p: Params, s: State)
    ensures var r := Regularize(p, s);
            && Admissible(p, r)
            && s.rho <= r.rho && s.e <= r.e
            && r.mX == s.mX && r.mY == s.mY && r.mZ == s.mZ
            && r.bX == s.bX && r.bY == s.bY && r.bZ == s.bZ && r.psi == s.psi
  {
    var w := ToPrimitive(p, s);
    var v2, b2 := SumSquares(w.vX, w.vY, w.vZ), SumSquares(s.bX, s.bY, s.bZ);
    MomentumVelocity(s.mX, w.rho);
    MomentumVelocity(s.mY, w.rho);
    MomentumVelocity(s.mZ, w.rho);
    EnergyPressure(p.gamma, s.e, w.p, w.rho, v2, b2);
    EnergyMonotone(p.gamma, ThermalPressure(p.gamma, s.e, w.rho, v2, b2), w.p, w.rho, v2, b2);
    hide SumSquares;
    hide Velocity;
    hide Momentum;
    hide ThermalPressure;
    hide TotalEnergy;
  }

  /** The projection leaves a cell alone exactly when the cell is admissible. */
  lemma RegularizeFixesExactlyAdmissible(p: Params, s: State)
    ensures Regularize(p, s) == s <==> Admissible(p, s)
  {
    RegularizeProjects(p, s);
    var w := ToPrimitive(p, s);
    EnergyPressure(p.gamma, s.e, w.p, w.rho, SumSquares(w.vX, w.vY, w.vZ), SumSquares(s.bX, s.bY, s.bZ));
    hide SumSquares;
    hide Velocity;
    hide Momentum;
    hide ThermalPressure;
    hide TotalEnergy;
  }

  lemma RegularizeIdempotent(p: Params, s: State)
    ensures Regularize(p, Regularize(p, s)) == Regularize(p, s)
    ensures ToPrimitive(p, Regularize(p, s)) == ToPrimitive(p, s)
  {
    PrimitiveRoundTrip(p, ToPrimitive(p, s));
  }

  function Dot(w: Primitive): real {
    w.vX * w.bX + w.vY * w.bY + w.vZ * w.bZ
  }

  // The terms of the flux, as functions of scalars.

  function Tension(m: real, v: real, b1: real, b2: real): real {
    m * v - b1 * b2
  }

  function NormalStress(m: real, v: real, ptot: real, b: real): real {
    m * v + ptot - b * b
  }

  function Induction(v1: real, b1: real, v2: real, b2: real): real {
    v1 * b1 - v2 * b2
  }

  function EnergyFlux(e: real, ptot: real, v: real, vdotb: real, b: real): real {
    (e + ptot) * v - vdotb * b
  }

  function CleaningFlux(ch: real, b: real): real {
    ch * ch * b
  }

  function Flux(p: Params, s: State, dir: Direction): State {
    var w := ToPrimitive(p, s);
    var ptot := w.p + 0.5 * SumSquares(w.bX, w.bY, w.bZ);
    var vdotb := Dot(w);
    match dir
    case X =>
      State(s.mX,
            NormalStress(s.mX, w.vX, ptot, w.bX), Tension(s.mY, w.vX, w.bX, w.bY), Tension(s.mZ, w.vX, w.bX, w.bZ),
            w.psi, Induction(w.vX, w.bY, w.vY, w.bX), Induction(w.vX, w.bZ, w.vZ, w.bX),
            EnergyFlux(s.e, ptot, w.vX, vdotb, w.bX), CleaningFlux(p.glmCh, w.bX))
    case Y =>
      State(s.mY,
            Tension(s.mX, w.vY, w.bY, w.bX), NormalStress(s.mY, w.vY, ptot, w.bY), Tension(s.mZ, w.vY, w.bY, w.bZ),
            Induction(w.vY, w.bX, w.vX, w.bY), w.psi, Induction(w.vY, w.bZ, w.vZ, w.bY),
            EnergyFlux(s.e, ptot, w.vY, vdotb, w.bY), CleaningFlux(p.glmCh, w.bY))
  }

  function FastMagnetosonic(p: Params, w: Primitive, dir: Direction): real {
    FastSpeed(p.sqrt, p.gamma, w.rho, w.p, SumSquares(w.bX, w.bY, w.bZ), if dir == X then w.bX else w.bY)
  }

  /** `inv` is one over the density. */
  function PerMass(x: real, inv: real): real {
    x * inv
  }

  function Discriminant(a2: real, b2: real, bn2: real): real {
    (a2 + b2) * (a2 + b2) - 4.0 * a2 * bn2
  }

  function FastSpeed(sqrt: real -> real, gamma: real, density: real, pressure: real, bb: real, bn: real): real {
    var rho := Max(density, 0.000000000000000000000000000001);
    var inv := 1.0 / rho;
    var a2 := PerMass(gamma * Max(pressure, 0.0), inv);
    var b2 := PerMass(bb, inv);
    var disc := Max(Discriminant(a2, b2, PerMass(Times(bn, bn), inv)), 0.0);
    var cf2 := 0.5 * ((a2 + b2) + sqrt(disc));
    sqrt(Max(cf2, 0.0))
  }

  function NormalVelocity(w: Primitive, dir: Direction): real {
    if dir == X then w.vX else w.vY
  }

  function SignalSpeed(p: Params, s: State, dir: Direction): real {
    var w := ToPrimitive(p, s);
    Abs(NormalVelocity(w, dir)) + FastMagnetosonic(p, w, dir)
  }

  /** One variable of the Rusanov and of the HLL flux. */
  function RusanovFlux(alpha: real, fl: real, fr: real, ul: real, ur: real): real {
    0.5 * (fl + fr) - 0.5 * alpha * (ur - ul)
  }

  function HllFlux(sl: real, sr: real, fl: real, fr: real, ul: real, ur: real): real
    requires sl < sr
  {
    (sr * fl - sl * fr + sl * sr * (ur - ul)) * (1.0 / (sr - sl))
  }

  function RusanovState(a: real, fl: State, fr: State, l: State, r: State): State {
    State(RusanovFlux(a, fl.rho, fr.rho, l.rho, r.rho), RusanovFlux(a, fl.mX, fr.mX, l.mX, r.mX),
          RusanovFlux(a, fl.mY, fr.mY, l.mY, r.mY), RusanovFlux(a, fl.mZ, fr.mZ, l.mZ, r.mZ),
          RusanovFlux(a, fl.bX, fr.bX, l.bX, r.bX), RusanovFlux(a, fl.bY, fr.bY, l.bY, r.bY),
          RusanovFlux(a, fl.bZ, fr.bZ, l.bZ, r.bZ), RusanovFlux(a, fl.e, fr.e, l.e, r.e),
          RusanovFlux(a, fl.psi, fr.psi, l.psi, r.psi))
  }

  function HllState(sl: real, sr: real, fl: State, fr: State, l: State, r: State): State
    requires sl < sr
  {
    State(HllFlux(sl, sr, fl.rho, fr.rho, l.rho, r.rho), HllFlux(sl, sr, fl.mX, fr.mX, l.mX, r.mX),
          HllFlux(sl, sr, fl.mY, fr.mY, l.mY, r.mY), HllFlux(sl, sr, fl.mZ, fr.mZ, l.mZ, r.mZ),
          HllFlux(sl, sr, fl.bX, fr.bX, l.bX, r.bX), HllFlux(sl, sr, fl.bY, fr.bY, l.bY, r.bY),
          HllFlux(sl, sr, fl.bZ, fr.bZ, l.bZ, r.bZ), HllFlux(sl, sr, fl.e, fr.e, l.e, r.e),
          HllFlux(sl, sr, fl.psi, fr.psi, l.psi, r.psi))
  }

  function RiemannFlux(p: Params, left: State, right: State, dir: Direction): State {
    var fl := Flux(p, left, dir);
    var fr := Flux(p, right, dir);
    match p.flux
    case Rusanov =>
      RusanovState(Max(SignalSpeed(p, left, dir), SignalSpeed(p, right, dir)), fl, fr, left, right)
    case HLL =>
      var wl := ToPrimitive(p, left);
      var wr := ToPrimitive(p, right);
      var cl := FastMagnetosonic(p, wl, dir);
      var cr := FastMagnetosonic(p, wr, dir);
      var sl := Min(NormalVelocity(wl, dir) - cl, NormalVelocity(wr, dir) - cr);
      var sr := Max(NormalVelocity(wl, dir) + cl, NormalVelocity(wr, dir) + cr);
      if sl >= 0.0 then fl
      else if sr <= 0.0 then fr
      else HllState(sl, sr, fl, fr, left, right)
  }

  function Minmod(a: real, b: real): real {
    if a * b <= 0.0 then 0.0 else if Abs(a) < Abs(b) then a else b
  }

  function MinmodState(a: State, b: State): State {
    State(Minmod(a.rho, b.rho), Minmod(a.mX, b.mX), Minmod(a.mY, b.mY), Minmod(a.mZ, b.mZ),
          Minmod(a.bX, b.bX), Minmod(a.bY, b.bY), Minmod(a.bZ, b.bZ), Minmod(a.e, b.e), Minmod(a.psi, b.psi))
  }

  /** The slope-limited change across cell `c` between its neighbours `l` and `r`. */
  function Slope(l: State, c: State, r: State): State {
    MinmodState(Sub(c, l), Sub(r, c))
  }

  /** The states on the two sides of the face between `l` and `r`; `ll` and `rr` are the next
      cells out, read only by the second-order scheme. */
  function FaceLeft(second: bool, ll: State, l: State, r: State): State {
    if second then Add(l, Scale(0.5, Slope(ll, l, r))) else l
  }

  function FaceRight(second: bool, l: State, r: State, rr: State): State {
    if second then Sub(r, Scale(0.5, Slope(l, r, rr))) else r
  }

  function FaceFlux(p: Params, second: bool, dir: Direction, ll: State, l: State, r: State, rr: State): State {
    RiemannFlux(p, Regularize(p, FaceLeft(second, ll, l, r)), Regularize(p, FaceRight(second, l, r, rr)), dir)
  }

  /** The right-hand side of one cell from the fluxes through its four faces. */
  function Divergence(p: Params, c: State, w: State, e: State, s: State, n: State): State {
    var dx, dy := Dx(p), Dy(p);
    State(NetFlux(w.rho, e.rho, s.rho, n.rho, dx, dy), NetFlux(w.mX, e.mX, s.mX, n.mX, dx, dy),
          NetFlux(w.mY, e.mY, s.mY, n.mY, dx, dy), NetFlux(w.mZ, e.mZ, s.mZ, n.mZ, dx, dy),
          NetFlux(w.bX, e.bX, s.bX, n.bX, dx, dy), NetFlux(w.bY, e.bY, s.bY, n.bY, dx, dy),
          NetFlux(w.bZ, e.bZ, s.bZ, n.bZ, dx, dy), NetFlux(w.e, e.e, s.e, n.e, dx, dy),
          NetFlux(w.psi, e.psi, s.psi, n.psi, dx, dy) + Times(-p.glmDamping, c.psi))
  }

  /** The projection raises no more than it must: its density is the least admissible one not below
      the cell's, and at that density its energy is the least. */
  lemma RegularizeLeast(p: Params, s: State, t: State)
    requires Admissible(p, t) && s.rho <= t.rho
    requires t.mX == s.mX && t.mY == s.mY && t.mZ == s.mZ && t.bX == s.bX && t.bY == s.bY && t.bZ == s.bZ
    ensures Regularize(p, s).rho <= t.rho
    ensures t.rho == Regularize(p, s).rho && s.e <= t.e ==> Regularize(p, s).e <= t.e
  {
    var w := ToPrimitive(p, s);
    if t.rho == w.rho && s.e <= t.e {
      var v2, b2 := SumSquares(w.vX, w.vY, w.vZ), SumSquares(s.bX, s.bY, s.bZ);
      var pt := ThermalPressure(p.gamma, t.e, w.rho, v2, b2);
      PressureGrows(p.gamma, s.e, t.e, w.rho, v2, b2);
      EnergyPressure(p.gamma, t.e, w.p, w.rho, v2, b2);
      EnergyMonotone(p.gamma, w.p, pt, w.rho, v2, b2);
    }
    hide SumSquares;
    hide Velocity;
    hide Momentum;
    hide ThermalPressure;
    hide TotalEnergy;
  }

  lemma PressureGrows(gamma: real, e: real, e': real, rho: real, v2: real, b2: real)
    requires 1.0 < gamma && e <= e'
    ensures ThermalPressure(gamma, e, rho, v2, b2) <= ThermalPressure(gamma, e', rho, v2, b2)
  {
    NonNegativeProduct(gamma - 1.0, e' - e);
  }
}
