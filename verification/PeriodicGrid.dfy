/** The reference scheme: one time step on the bare periodic grid, with no ghost cells, no stored
    fluxes and no ranks. The solver's flat, haloed, distributed form is proved against it. */
module PeriodicGrid {
  import opened States
  import opened Physics

  /** Rows of cells: `g[j][i]` is column i of row j. */
  type Grid = seq<seq<State>>

  predicate Shape(g: Grid, nx: int, ny: int) {
    |g| == ny && forall j :: 0 <= j < ny ==> |g[j]| == nx
  }

  function Wrap(k: int, n: int): (r: int)
    requires 1 <= n && -n <= k < 2 * n
    ensures 0 <= r < n && (r == k || r == k + n || r == k - n)
  {
    if k < 0 then k + n else if k >= n then k - n else k
  }

  /** Grid cell (i, j), the grid repeating in both directions. */
  function At(p: Params, g: Grid, i: int, j: int): State
    requires Shape(g, p.nx, p.ny)
    requires -p.nx <= i < 2 * p.nx && -p.ny <= j < 2 * p.ny
  {
    g[Wrap(j, p.ny)][Wrap(i, p.nx)]
  }

  /** The flux through the face west of cell (i, j). */
  function WestFace(p: Params, second: bool, g: Grid, i: int, j: int): State
    requires Shape(g, p.nx, p.ny) && 0 <= i <= p.nx && 0 <= j < p.ny
  {
    FaceFlux(p, second, X, At(p, g, i - 2, j), At(p, g, i - 1, j), At(p, g, i, j), At(p, g, i + 1, j))
  }

  /** The flux through the face south of cell (i, j). */
  function SouthFace(p: Params, second: bool, g: Grid, i: int, j: int): State
    requires Shape(g, p.nx, p.ny) && 0 <= i < p.nx && 0 <= j <= p.ny
  {
    FaceFlux(p, second, Y, At(p, g, i, j - 2), At(p, g, i, j - 1), At(p, g, i, j), At(p, g, i, j + 1))
  }

  function RhsCell(p: Params, second: bool, g: Grid, i: int, j: int): State
    requires Shape(g, p.nx, p.ny) && 0 <= i < p.nx && 0 <= j < p.ny
  {
    Divergence(p, g[j][i], WestFace(p, second, g, i, j), WestFace(p, second, g, i + 1, j),
               SouthFace(p, second, g, i, j), SouthFace(p, second, g, i, j + 1))
  }

  function Rhs(p: Params, second: bool, g: Grid): (r: Grid)
    requires Shape(g, p.nx, p.ny)
    ensures Shape(r, p.nx, p.ny)
    ensures forall i, j :: 0 <= i < p.nx && 0 <= j < p.ny ==> r[j][i] == RhsCell(p, second, g, i, j)
  {
    seq(p.ny, j requires 0 <= j < p.ny => seq(p.nx, i requires 0 <= i < p.nx => RhsCell(p, second, g, i, j)))
  }

  /** u + dt * r, cell by cell. */
  function Euler(p: Params, dt: real, u: Grid, r: Grid): (w: Grid)
    requires Shape(u, p.nx, p.ny) && Shape(r, p.nx, p.ny)
    ensures Shape(w, p.nx, p.ny)
    ensures forall i, j :: 0 <= i < p.nx && 0 <= j < p.ny ==> w[j][i] == Add(u[j][i], Scale(dt, r[j][i]))
  {
    seq(p.ny, j requires 0 <= j < p.ny =>
      seq(p.nx, i requires 0 <= i < p.nx => Add(u[j][i], Scale(dt, r[j][i]))))
  }

  /** One cell of the second Heun stage: (u + s + dt * r) / 2. */
  function Average(dt: real, u: State, s: State, r: State): State {
    Scale(0.5, Add(Add(u, s), Scale(dt, r)))
  }

  function Heun(p: Params, dt: real, u: Grid, s: Grid, r: Grid): (w: Grid)
    requires Shape(u, p.nx, p.ny) && Shape(s, p.nx, p.ny) && Shape(r, p.nx, p.ny)
    ensures Shape(w, p.nx, p.ny)
    ensures forall i, j :: 0 <= i < p.nx && 0 <= j < p.ny ==> w[j][i] == Average(dt, u[j][i], s[j][i], r[j][i])
  {
    seq(p.ny, j requires 0 <= j < p.ny =>
      seq(p.nx, i requires 0 <= i < p.nx => Average(dt, u[j][i], s[j][i], r[j][i])))
  }

  function Floors(p: Params, u: Grid): (w: Grid)
    requires Shape(u, p.nx, p.ny)
    ensures Shape(w, p.nx, p.ny)
    ensures forall i, j :: 0 <= i < p.nx && 0 <= j < p.ny ==> w[j][i] == Regularize(p, u[j][i])
  {
    seq(p.ny, j requires 0 <= j < p.ny => seq(p.nx, i requires 0 <= i < p.nx => Regularize(p, u[j][i])))
  }

  /** The grid before the last flooring of a step. */
  function Unfloored(p: Params, dt: real, g: Grid): (r: Grid)
    requires Shape(g, p.nx, p.ny)
    ensures Shape(r, p.nx, p.ny)
  {
    match p.reconstruction
    case FirstOrder => Euler(p, dt, g, Rhs(p, false, g))
    case MUSCL => var s := Stage(p, dt, g); Heun(p, dt, g, s, Rhs(p, true, s))
  }

  /** The intermediate state of the two-stage scheme. */
  function Stage(p: Params, dt: real, g: Grid): (s: Grid)
    requires Shape(g, p.nx, p.ny)
    ensures Shape(s, p.nx, p.ny)
  {
    Floors(p, Euler(p, dt, g, Rhs(p, true, g)))
  }

  /** One time step. */
  function Advance(p: Params, dt: real, g: Grid): (r: Grid)
    requires Shape(g, p.nx, p.ny)
    ensures Shape(r, p.nx, p.ny)
  {
    Floors(p, Unfloored(p, dt, g))
  }

  function Run(p: Params, dts: seq<real>, g: Grid): (r: Grid)
    requires Shape(g, p.nx, p.ny)
    ensures Shape(r, p.nx, p.ny)
    decreases |dts|
  {
    if dts == [] then g else Run(p, dts[1..], Advance(p, dts[0], g))
  }

  lemma SameGrid(g: Grid, h: Grid, nx: int, ny: int)
    requires Shape(g, nx, ny) && Shape(h, nx, ny)
    requires forall i, j :: 0 <= i < nx && 0 <= j < ny ==> g[j][i] == h[j][i]
    ensures g == h
  {
    forall j | 0 <= j < ny ensures g[j] == h[j] {
      assert forall i :: 0 <= i < nx ==> g[j][i] == h[j][i];
    }
  }
}
