/** Symmetries of a whole step: transposing the axes, and uniform fields. */
module Symmetry {
  import opened States
  import opened Physics
  import opened FaceLemmas
  import opened PeriodicGrid
  import opened Conservation

  /** The transposed grid: axes swapped, and with them the vector components of every cell. */
  function Transpose(g: Grid, nx: nat, ny: nat): (t: Grid)
    requires Shape(g, nx, ny)
    ensures Shape(t, ny, nx)
    ensures forall i, j :: 0 <= i < ny && 0 <= j < nx ==> t[j][i] == Mirror(g[i][j])
  {
    seq(nx, j requires 0 <= j < nx => seq(ny, i requires 0 <= i < ny => Mirror(g[i][j])))
  }

  lemma DivergenceMirrors(p: Params, c: State, w: State, e: State, s: State, n: State)
    ensures Divergence(Transposed(p), Mirror(c), Mirror(s), Mirror(n), Mirror(w), Mirror(e))
         == Mirror(Divergence(p, c, w, e, s, n))
  {
    assert Dx(Transposed(p)) == Dy(p) && Dy(Transposed(p)) == Dx(p);
    hide Quotient;
    hide Times;
  }

  lemma FacesTranspose(p: Params, second: bool, g: Grid, i: int, j: int)
    requires Shape(g, p.nx, p.ny)
    ensures var q, t := Transposed(p), Transpose(g, p.nx, p.ny);
            && (0 <= i < p.nx && 0 <= j <= p.ny ==>
                WestFace(q, second, t, j, i) == Mirror(SouthFace(p, second, g, i, j)))
            && (0 <= i <= p.nx && 0 <= j < p.ny ==>
                SouthFace(q, second, t, j, i) == Mirror(WestFace(p, second, g, i, j)))
  {
    hide FaceFlux;
    var q: Params := Transposed(p);
    if 0 <= i < p.nx && 0 <= j <= p.ny {
      FaceFluxMirrors(p, q, second, Y, At(p, g, i, j - 2), At(p, g, i, j - 1), At(p, g, i, j), At(p, g, i, j + 1));
    }
    if 0 <= i <= p.nx && 0 <= j < p.ny {
      FaceFluxMirrors(p, q, second, X, At(p, g, i - 2, j), At(p, g, i - 1, j), At(p, g, i, j), At(p, g, i + 1, j));
    }
  }

  lemma RhsCellTransposes(p: Params, second: bool, g: Grid, i: int, j: int)
    requires Shape(g, p.nx, p.ny) && 0 <= i < p.nx && 0 <= j < p.ny
    ensures RhsCell(Transposed(p), second, Transpose(g, p.nx, p.ny), j, i) == Mirror(RhsCell(p, second, g, i, j))
  {
    hide WestFace;
    hide SouthFace;
    hide Divergence;
    FacesTranspose(p, second, g, i, j);
    FacesTranspose(p, second, g, i + 1, j);
    FacesTranspose(p, second, g, i, j + 1);
    DivergenceMirrors(p, g[j][i], WestFace(p, second, g, i, j), WestFace(p, second, g, i + 1, j),
                      SouthFace(p, second, g, i, j), SouthFace(p, second, g, i, j + 1));
  }

  lemma RhsTransposes(p: Params, second: bool, g: Grid)
    requires Shape(g, p.nx, p.ny)
    ensures Rhs(Transposed(p), second, Transpose(g, p.nx, p.ny)) == Transpose(Rhs(p, second, g), p.nx, p.ny)
  {
    var q: Params := Transposed(p);
    var t := Transpose(g, p.nx, p.ny);
    forall i, j | 0 <= i < q.nx && 0 <= j < q.ny
      ensures RhsCell(q, second, t, i, j) == Mirror(RhsCell(p, second, g, j, i))
    {
      RhsCellTransposes(p, second, g, j, i);
    }
    hide RhsCell;
    SameGrid(Rhs(q, second, t), Transpose(Rhs(p, second, g), p.nx, p.ny), q.nx, q.ny);
  }

  lemma EulerTransposes(p: Params, dt: real, u: Grid, r: Grid)
    requires Shape(u, p.nx, p.ny) && Shape(r, p.nx, p.ny)
    ensures Euler(Transposed(p), dt, Transpose(u, p.nx, p.ny), Transpose(r, p.nx, p.ny))
         == Transpose(Euler(p, dt, u, r), p.nx, p.ny)
  {
    SameGrid(Euler(Transposed(p), dt, Transpose(u, p.nx, p.ny), Transpose(r, p.nx, p.ny)),
             Transpose(Euler(p, dt, u, r), p.nx, p.ny), p.ny, p.nx);
  }

  lemma HeunTransposes(p: Params, dt: real, u: Grid, s: Grid, r: Grid)
    requires Shape(u, p.nx, p.ny) && Shape(s, p.nx, p.ny) && Shape(r, p.nx, p.ny)
    ensures Heun(Transposed(p), dt, Transpose(u, p.nx, p.ny), Transpose(s, p.nx, p.ny), Transpose(r, p.nx, p.ny))
         == Transpose(Heun(p, dt, u, s, r), p.nx, p.ny)
  {
    SameGrid(Heun(Transposed(p), dt, Transpose(u, p.nx, p.ny), Transpose(s, p.nx, p.ny), Transpose(r, p.nx, p.ny)),
             Transpose(Heun(p, dt, u, s, r), p.nx, p.ny), p.ny, p.nx);
  }

  lemma FloorsTranspose(p: Params, u: Grid)
    requires Shape(u, p.nx, p.ny)
    ensures Floors(Transposed(p), Transpose(u, p.nx, p.ny)) == Transpose(Floors(p, u), p.nx, p.ny)
  {
    hide Regularize;
    forall i, j | 0 <= i < p.nx && 0 <= j < p.ny
      ensures Regularize(Transposed(p), Mirror(u[j][i])) == Mirror(Regularize(p, u[j][i]))
    {
      RegularizeMirrors(p, Transposed(p), u[j][i]);
    }
    SameGrid(Floors(Transposed(p), Transpose(u, p.nx, p.ny)), Transpose(Floors(p, u), p.nx, p.ny), p.ny, p.nx);
  }

  /** Transposing the grid and the problem commutes with a step. */
  lemma AdvanceTransposes(p: Params, dt: real, g: Grid)
    requires Shape(g, p.nx, p.ny)
    ensures Advance(Transposed(p), dt, Transpose(g, p.nx, p.ny)) == Transpose(Advance(p, dt, g), p.nx, p.ny)
  {
    hide Rhs;
    hide Euler;
    hide Heun;
    hide Floors;
    hide Transpose;
    var second := p.reconstruction == MUSCL;
    var r := Rhs(p, second, g);
    RhsTransposes(p, second, g);
    EulerTransposes(p, dt, g, r);
    FloorsTranspose(p, Euler(p, dt, g, r));
    if second {
      var s := Floors(p, Euler(p, dt, g, r));
      RhsTransposes(p, true, s);
      HeunTransposes(p, dt, g, s, Rhs(p, true, s));
      FloorsTranspose(p, Heun(p, dt, g, s, Rhs(p, true, s)));
    }
  }

  /** Transposing commutes with any run. */
  lemma {:induction false} RunTransposes(p: Params, dts: seq<real>, g: Grid)
    requires Shape(g, p.nx, p.ny)
    ensures Run(Transposed(p), dts, Transpose(g, p.nx, p.ny)) == Transpose(Run(p, dts, g), p.nx, p.ny)
    decreases |dts|
  {
    hide Advance;
    hide Transpose;
    if dts != [] {
      AdvanceTransposes(p, dts[0], g);
      RunTransposes(p, dts[1..], Advance(p, dts[0], g));
    }
  }

  // ----- Free stream -----

  ghost predicate Uniform(p: Params, g: Grid, s: State) {
    Shape(g, p.nx, p.ny) && forall i, j :: 0 <= i < p.nx && 0 <= j < p.ny ==> g[j][i] == s
  }

  /** Faces between equal cells all carry the same flux, so only the damping of psi is left. */
  lemma UniformRhs(p: Params, second: bool, g: Grid, s: State)
    requires Uniform(p, g, s)
    ensures Uniform(p, Rhs(p, second, g), ZERO.(psi := -Times(p.glmDamping, s.psi)))
  {
    hide FaceFlux;
    NoDifference(p, s, FaceFlux(p, second, X, s, s, s, s), FaceFlux(p, second, Y, s, s, s, s));
    hide Divergence;
    hide Times;
  }

  lemma NoDifference(p: Params, c: State, f: State, g: State)
    ensures Divergence(p, c, f, f, g, g) == ZERO.(psi := -Times(p.glmDamping, c.psi))
  {
    QuotientAdds(0.0, 0.0, Dx(p));
    QuotientAdds(0.0, 0.0, Dy(p));
    assert Times(-p.glmDamping, c.psi) == -Times(p.glmDamping, c.psi);
    hide Quotient;
    hide Times;
  }

  lemma AdmissibleIgnoresPsi(p: Params, s: State, x: real)
    ensures Admissible(p, s.(psi := x)) == Admissible(p, s)
  {
    hide ThermalPressure;
    hide SumSquares;
    hide Velocity;
  }

  lemma UniformEuler(p: Params, second: bool, dt: real, g: Grid, s: State)
    requires Uniform(p, g, s) && Admissible(p, s)
    ensures var t := s.(psi := Damped(dt, p.glmDamping, s.psi));
            Admissible(p, t) && Uniform(p, Floors(p, Euler(p, dt, g, Rhs(p, second, g))), t)
  {
    hide Rhs;
    hide Regularize;
    hide Admissible;
    var t := s.(psi := Damped(dt, p.glmDamping, s.psi));
    UniformRhs(p, second, g, s);
    assert Add(s, Scale(dt, ZERO.(psi := -Times(p.glmDamping, s.psi)))) == t;
    hide Times;
    AdmissibleIgnoresPsi(p, s, t.psi);
    RegularizeFixesExactlyAdmissible(p, t);
    hide Add;
    hide Scale;
  }

  lemma UniformHeun(p: Params, dt: real, g: Grid, s: State, h: Grid, st: State)
    requires Uniform(p, g, s) && Admissible(p, s) && st == s.(psi := st.psi) && Uniform(p, h, st)
    ensures var t := s.(psi := 0.5 * (s.psi + Damped(dt, p.glmDamping, st.psi)));
            Admissible(p, t) && Uniform(p, Floors(p, Heun(p, dt, g, h, Rhs(p, true, h))), t)
  {
    hide Rhs;
    hide Regularize;
    hide Admissible;
    var t := s.(psi := 0.5 * (s.psi + Damped(dt, p.glmDamping, st.psi)));
    UniformRhs(p, true, h, st);
    assert Average(dt, s, st, ZERO.(psi := -Times(p.glmDamping, st.psi))) == t;
    hide Times;
    AdmissibleIgnoresPsi(p, s, t.psi);
    RegularizeFixesExactlyAdmissible(p, t);
    hide Average;
  }

  /** A uniform admissible field stays uniform in a step; psi is damped and nothing else changes. */
  lemma UniformStep(p: Params, dt: real, g: Grid, s: State)
    requires Uniform(p, g, s) && Admissible(p, s)
    ensures var t := s.(psi := Times(PsiFactor(p, dt), s.psi));
            Uniform(p, Advance(p, dt, g), t) && Admissible(p, t)
  {
    hide Rhs;
    hide Euler;
    hide Heun;
    hide Floors;
    hide Admissible;
    PsiDamping(p, dt, s.psi);
    hide Damped;
    hide Times;
    hide PsiFactor;
    UniformEuler(p, p.reconstruction == MUSCL, dt, g, s);
    if p.reconstruction == MUSCL {
      UniformHeun(p, dt, g, s, Stage(p, dt, g), s.(psi := Damped(dt, p.glmDamping, s.psi)));
    }
  }

  /** A uniform admissible field stays uniform over any run, with nothing but psi changed. */
  lemma {:induction false} FreeStream(p: Params, dts: seq<real>, g: Grid, s: State)
    requires Uniform(p, g, s) && Admissible(p, s)
    ensures Uniform(p, Run(p, dts, g), s.(psi := Times(PsiFactors(p, dts), s.psi)))
    decreases |dts|
  {
    hide Advance;
    hide Admissible;
    hide PsiFactor;
    if dts != [] {
      UniformStep(p, dts[0], g, s);
      var t := s.(psi := Times(PsiFactor(p, dts[0]), s.psi));
      FreeStream(p, dts[1..], Advance(p, dts[0], g), t);
      TimesAssociates(PsiFactors(p, dts[1..]), PsiFactor(p, dts[0]), s.psi);
      hide Times;
    }
  }
}
