/** The solver's parameters and its two views of one cell: the nine conserved variables and the
    primitive ones. A loop of the solver over the nine variables is a vector operation here. */
module States {

  datatype FluxType = Rusanov | HLL

  datatype ReconstructionType = FirstOrder | MUSCL

  /** The parameters the scheme depends on. `sqrt` stands for the library's square root; each
      lemma that needs a property of it says which. */
  datatype SimulationParams = SimulationParams(
    nx: int, ny: int, ng: int,
    xMin: real, xMax: real, yMin: real, yMax: real,
    gamma: real, cfl: real, rhoFloor: real, pFloor: real,
    glmCh: real, glmDamping: real, fixedDt: real,
    flux: FluxType, reconstruction: ReconstructionType,
    sqrt: real -> real)
  {
    predicate Valid() {
      && 2 <= ng <= nx && ng <= ny
      && xMin < xMax && yMin < yMax
      && 1.0 < gamma && 0.0 < rhoFloor && 0.0 <= pFloor
    }
  }

  type Params = p: SimulationParams | p.Valid()
    witness SimulationParams(2, 2, 2, 0.0, 1.0, 0.0, 1.0, 2.0, 0.5, 1.0, 1.0, 1.0, 0.1, 0.0,
                             Rusanov, FirstOrder, x => x)

  function Dx(p: Params): (d: real)
    ensures 0.0 < d
  {
    PositiveQuotient(p.xMax - p.xMin, p.nx as real);
    (p.xMax - p.xMin) / (p.nx as real)
  }

  function Dy(p: Params): (d: real)
    ensures 0.0 < d
  {
    PositiveQuotient(p.yMax - p.yMin, p.ny as real);
    (p.yMax - p.yMin) / (p.ny as real)
  }

  /** The cells tile the domain. */
  lemma CellsTileDomain(p: Params)
    ensures (p.nx as real) * Dx(p) == p.xMax - p.xMin && (p.ny as real) * Dy(p) == p.yMax - p.yMin
  {
  }

  lemma PositiveQuotient(a: real, b: real)
    requires 0.0 < a && 0.0 < b
    ensures 0.0 < a / b
  {
  }

  lemma PositiveProduct(a: real, b: real)
    requires 0.0 < a && 0.0 < b
    ensures 0.0 < a * b
  {
  }

  lemma RootsOrdered(a: real, b: real)
    requires 0.0 <= a < b
    ensures a * a < b * b
  {
    PositiveProduct(b - a, b + a);
    assert (b - a) * (b + a) == b * b - a * a;
  }

  lemma NonNegativeProduct(a: real, b: real)
    requires 0.0 <= a && 0.0 <= b
    ensures 0.0 <= a * b
  {
  }

  function Max(a: real, b: real): real {
    if a < b then b else a
  }

  function Min(a: real, b: real): real {
    if b < a then b else a
  }

  function Abs(a: real): real {
    if a < 0.0 then -a else a
  }

  // Scalar arithmetic under a name, so that a proof can treat a product as one term.

  function Times(c: real, x: real): real {
    c * x
  }

  lemma TimesAdds(c: real, a: real, b: real)
    ensures Times(c, a + b) == Times(c, a) + Times(c, b)
    ensures Times(c, 0.0) == 0.0 && Times(0.0, a) == 0.0
  {
  }

  function Quotient(a: real, b: real): real
    requires b != 0.0
  {
    a / b
  }

  lemma QuotientAdds(a: real, b: real, d: real)
    requires d != 0.0
    ensures Quotient(a, d) + Quotient(b, d) == Quotient(a + b, d)
    ensures Quotient(0.0, d) == 0.0
  {
  }

  /** Minus the discrete divergence of one variable in one cell. */
  function NetFlux(xw: real, xe: real, ys: real, yn: real, dx: real, dy: real): real
    requires dx != 0.0 && dy != 0.0
  {
    -(Quotient(xe - xw, dx) + Quotient(yn - ys, dy))
  }

  /** One cell's conserved variables, in the order of the solver's array. */
  datatype State = State(
    rho: real, mX: real, mY: real, mZ: real,
    bX: real, bY: real, bZ: real, e: real, psi: real)
  {
    /** The variable at position `v`. */
    function Get(v: int): real {
      if v == 0 then rho else if v == 1 then mX else if v == 2 then mY else
      if v == 3 then mZ else if v == 4 then bX else if v == 5 then bY else
      if v == 6 then bZ else if v == 7 then e else psi
    }
  }

  const NUM_VARS := 9
  const PSI := 8

  const ZERO := State(0.0, 0.0, 0.0, 0.0, 0.0, 0.0, 0.0, 0.0, 0.0)

  function Add(a: State, b: State): State {
    State(a.rho + b.rho, a.mX + b.mX, a.mY + b.mY, a.mZ + b.mZ,
          a.bX + b.bX, a.bY + b.bY, a.bZ + b.bZ, a.e + b.e, a.psi + b.psi)
  }

  function Sub(a: State, b: State): State {
    State(a.rho - b.rho, a.mX - b.mX, a.mY - b.mY, a.mZ - b.mZ,
          a.bX - b.bX, a.bY - b.bY, a.bZ - b.bZ, a.e - b.e, a.psi - b.psi)
  }

  function Scale(k: real, a: State): State {
    State(Times(k, a.rho), Times(k, a.mX), Times(k, a.mY), Times(k, a.mZ), Times(k, a.bX), Times(k, a.bY),
          Times(k, a.bZ), Times(k, a.e), Times(k, a.psi))
  }

  lemma SameState(a: State, b: State)
    requires forall v :: 0 <= v < NUM_VARS ==> a.Get(v) == b.Get(v)
    ensures a == b
  {
    assert a.Get(0) == b.Get(0) && a.Get(1) == b.Get(1) && a.Get(2) == b.Get(2);
    assert a.Get(3) == b.Get(3) && a.Get(4) == b.Get(4) && a.Get(5) == b.Get(5);
    assert a.Get(6) == b.Get(6) && a.Get(7) == b.Get(7) && a.Get(8) == b.Get(8);
  }

  /** The x/y mirror image of a cell: momentum and field change components. */
  function Mirror(s: State): State {
    State(s.rho, s.mY, s.mX, s.mZ, s.bY, s.bX, s.bZ, s.e, s.psi)
  }

  datatype Primitive = Primitive(
    rho: real, vX: real, vY: real, vZ: real,
    bX: real, bY: real, bZ: real, p: real, psi: real)
}
