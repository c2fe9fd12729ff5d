/** One rank's ghosted field as a value, and what each local phase of the solver does to it. The
    class `MHD2D` carries out these functions in place on flat arrays. */
module RankField {
  import opened States
  import opened Physics
  import opened PeriodicGrid

  /** A rank's cells with `ng` ghost cells on every side: `f[j][i]`, in local coordinates. */
  type Field = Grid

  function Width(p: Params): nat {
    p.nx + 2 * p.ng
  }

  function Height(p: Params, rows: int): int {
    rows + 2 * p.ng
  }

  predicate IsField(p: Params, rows: int, f: Field) {
    1 <= rows && Shape(f, Width(p), Height(p, rows))
  }

  predicate InCells(p: Params, rows: int, i: int, j: int) {
    p.ng <= i < p.ng + p.nx && p.ng <= j < p.ng + rows
  }

  predicate InField(p: Params, rows: int, i: int, j: int) {
    0 <= i < Width(p) && 0 <= j < Height(p, rows)
  }

  /** Cells at most `depth` rows above or below a rank's own rows, in every column. */
  predicate Near(p: Params, rows: int, depth: int, i: int, j: int) {
    0 <= i < Width(p) && p.ng - depth <= j < p.ng + rows + depth
  }

  /** How many rows away a right-hand side reads. */
  function Reach(second: bool): (k: int)
    ensures 1 <= k <= 2
  {
    if second then 2 else 1
  }

  /** The index a halo copy reads for index `k` of a line of `n` cells with `ng` ghosts each side. */
  function HaloSource(k: int, n: int, ng: int): int {
    if k < ng then k + n else if k >= ng + n then k - n else k
  }

  function FillX(p: Params, rows: int, f: Field): (r: Field)
    requires IsField(p, rows, f)
    ensures IsField(p, rows, r)
    ensures forall i, j :: InField(p, rows, i, j) ==> r[j][i] == f[j][HaloSource(i, p.nx, p.ng)]
  {
    seq(Height(p, rows), j requires 0 <= j < Height(p, rows) =>
      seq(Width(p), i requires 0 <= i < Width(p) => f[j][HaloSource(i, p.nx, p.ng)]))
  }

  function FillY(p: Params, rows: int, f: Field): (r: Field)
    requires IsField(p, rows, f) && p.ng <= rows
    ensures IsField(p, rows, r)
    ensures forall j :: 0 <= j < Height(p, rows) ==> r[j] == f[HaloSource(j, rows, p.ng)]
  {
    seq(Height(p, rows), j requires 0 <= j < Height(p, rows) => f[HaloSource(j, rows, p.ng)])
  }

  // The rows a rank sends down and up, and the rows it receives.

  function BottomRows(p: Params, rows: int, f: Field): (m: Grid)
    requires IsField(p, rows, f)
    ensures Shape(m, Width(p), p.ng)
  {
    f[p.ng..2 * p.ng]
  }

  function TopRows(p: Params, rows: int, f: Field): (m: Grid)
    requires IsField(p, rows, f)
    ensures Shape(m, Width(p), p.ng)
  {
    f[rows..rows + p.ng]
  }

  function PutHalos(p: Params, rows: int, f: Field, bottom: Grid, top: Grid): (r: Field)
    requires IsField(p, rows, f) && Shape(bottom, Width(p), p.ng) && Shape(top, Width(p), p.ng)
    ensures IsField(p, rows, r)
    ensures forall j :: 0 <= j < Height(p, rows) ==>
              r[j] == if j < p.ng then bottom[j] else if j >= p.ng + rows then top[j - p.ng - rows] else f[j]
  {
    bottom + f[p.ng..p.ng + rows] + top
  }

  /** The right-hand side of an interior cell, from the cells around it. */
  function FieldRhsCell(p: Params, rows: int, second: bool, f: Field, i: int, j: int): State
    requires IsField(p, rows, f) && InCells(p, rows, i, j)
  {
    Divergence(p, f[j][i],
               FaceFlux(p, second, X, f[j][i - 2], f[j][i - 1], f[j][i], f[j][i + 1]),
               FaceFlux(p, second, X, f[j][i - 1], f[j][i], f[j][i + 1], f[j][i + 2]),
               FaceFlux(p, second, Y, f[j - 2][i], f[j - 1][i], f[j][i], f[j + 1][i]),
               FaceFlux(p, second, Y, f[j - 1][i], f[j][i], f[j + 1][i], f[j + 2][i]))
  }

  /** Interior right-hand sides; zero in the ghost cells. */
  function FieldRhs(p: Params, rows: int, second: bool, f: Field): (r: Field)
    requires IsField(p, rows, f)
    ensures IsField(p, rows, r)
    ensures forall i, j :: InField(p, rows, i, j) ==>
              r[j][i] == if InCells(p, rows, i, j) then FieldRhsCell(p, rows, second, f, i, j) else ZERO
  {
    seq(Height(p, rows), j requires 0 <= j < Height(p, rows) =>
      seq(Width(p), i requires 0 <= i < Width(p) =>
        if InCells(p, rows, i, j) then FieldRhsCell(p, rows, second, f, i, j) else ZERO))
  }

  // Interior updates; ghost cells keep what they hold.

  function FieldEuler(p: Params, rows: int, dt: real, f: Field, r: Field): (w: Field)
    requires IsField(p, rows, f) && IsField(p, rows, r)
    ensures IsField(p, rows, w)
    ensures forall i, j :: InField(p, rows, i, j) ==>
              w[j][i] == if InCells(p, rows, i, j) then Add(f[j][i], Scale(dt, r[j][i])) else f[j][i]
  {
    seq(Height(p, rows), j requires 0 <= j < Height(p, rows) =>
      seq(Width(p), i requires 0 <= i < Width(p) =>
        if InCells(p, rows, i, j) then Add(f[j][i], Scale(dt, r[j][i])) else f[j][i]))
  }

  function FieldHeun(p: Params, rows: int, dt: real, f: Field, s: Field, r: Field): (w: Field)
    requires IsField(p, rows, f) && IsField(p, rows, s) && IsField(p, rows, r)
    ensures IsField(p, rows, w)
    ensures forall i, j :: InField(p, rows, i, j) ==>
              w[j][i] == if InCells(p, rows, i, j) then Average(dt, f[j][i], s[j][i], r[j][i]) else f[j][i]
  {
    seq(Height(p, rows), j requires 0 <= j < Height(p, rows) =>
      seq(Width(p), i requires 0 <= i < Width(p) =>
        if InCells(p, rows, i, j) then Average(dt, f[j][i], s[j][i], r[j][i]) else f[j][i]))
  }

  function FieldFloors(p: Params, rows: int, f: Field): (w: Field)
    requires IsField(p, rows, f)
    ensures IsField(p, rows, w)
    ensures forall i, j :: InField(p, rows, i, j) ==>
              w[j][i] == if InCells(p, rows, i, j) then Regularize(p, f[j][i]) else f[j][i]
  {
    seq(Height(p, rows), j requires 0 <= j < Height(p, rows) =>
      seq(Width(p), i requires 0 <= i < Width(p) =>
        if InCells(p, rows, i, j) then Regularize(p, f[j][i]) else f[j][i]))
  }

  /** The first local phase of a step: right-hand side, update, floors. */
  function PhaseOne(p: Params, rows: int, second: bool, dt: real, f: Field): (w: Field)
    requires IsField(p, rows, f)
    ensures IsField(p, rows, w)
  {
    FieldFloors(p, rows, FieldEuler(p, rows, dt, f, FieldRhs(p, rows, second, f)))
  }

  /** The second local phase of the two-stage scheme. */
  function PhaseTwo(p: Params, rows: int, dt: real, f: Field, s: Field): (w: Field)
    requires IsField(p, rows, f) && IsField(p, rows, s)
    ensures IsField(p, rows, w)
  {
    FieldFloors(p, rows, FieldHeun(p, rows, dt, f, s, FieldRhs(p, rows, true, s)))
  }

  lemma SameField(p: Params, rows: int, f: Field, g: Field)
    requires IsField(p, rows, f) && IsField(p, rows, g)
    requires forall i, j :: InField(p, rows, i, j) ==> f[j][i] == g[j][i]
    ensures f == g
  {
    forall i, j | 0 <= i < Width(p) && 0 <= j < Height(p, rows) ensures f[j][i] == g[j][i] {
      assert InField(p, rows, i, j);
    }
    SameGrid(f, g, Width(p), Height(p, rows));
  }

  // ----- Rows of the periodic grid -----

  /** `f` holds rows `start`, ..., of grid `g` in its interior. */
  ghost predicate Holds(p: Params, rows: int, start: int, f: Field, g: Grid)
    requires Shape(g, p.nx, p.ny) && 0 <= start && start + rows <= p.ny
  {
    IsField(p, rows, f) && forall i, j :: InCells(p, rows, i, j) ==> HoldsCell(p, rows, start, f, g, i, j)
  }

  predicate HoldsCell(p: Params, rows: int, start: int, f: Field, g: Grid, i: int, j: int)
    requires Shape(g, p.nx, p.ny) && 0 <= start && start + rows <= p.ny
    requires IsField(p, rows, f) && InCells(p, rows, i, j)
  {
    f[j][i] == g[start + j - p.ng][i - p.ng]
  }

  /** `f` is the periodic extension of those rows, as far as `depth` rows out, in every column. */
  ghost predicate ExtendsWithin(p: Params, rows: int, start: int, f: Field, g: Grid, depth: int)
    requires Shape(g, p.nx, p.ny) && 0 <= start && start + rows <= p.ny && 0 <= depth <= p.ng
  {
    IsField(p, rows, f) && forall i, j :: Near(p, rows, depth, i, j) ==> ExtendsCell(p, rows, start, f, g, i, j)
  }

  /** All ghosts and corners included. */
  ghost predicate Extends(p: Params, rows: int, start: int, f: Field, g: Grid)
    requires Shape(g, p.nx, p.ny) && 0 <= start && start + rows <= p.ny
  {
    ExtendsWithin(p, rows, start, f, g, p.ng)
  }

  predicate ExtendsCell(p: Params, rows: int, start: int, f: Field, g: Grid, i: int, j: int)
    requires Shape(g, p.nx, p.ny) && 0 <= start && start + rows <= p.ny
    requires IsField(p, rows, f) && InField(p, rows, i, j)
  {
    f[j][i] == At(p, g, i - p.ng, start + j - p.ng)
  }

  /** The interior of a field, as a grid of its own. */
  function Interior(p: Params, rows: int, f: Field): (g: Grid)
    requires IsField(p, rows, f)
    ensures Shape(g, p.nx, rows)
    ensures forall i, j :: 0 <= i < p.nx && 0 <= j < rows ==> g[j][i] == f[p.ng + j][p.ng + i]
  {
    seq(rows, j requires 0 <= j < rows => seq(p.nx, i requires 0 <= i < p.nx => f[p.ng + j][p.ng + i]))
  }

  lemma InteriorHeld(p: Params, f: Field)
    requires IsField(p, p.ny, f)
    ensures Holds(p, p.ny, 0, f, Interior(p, p.ny, f))
  {
  }

  lemma ExtendsHolds(p: Params, rows: int, start: int, f: Field, g: Grid, depth: int)
    requires Shape(g, p.nx, p.ny) && 0 <= start && start + rows <= p.ny && 0 <= depth <= p.ng
    requires ExtendsWithin(p, rows, start, f, g, depth)
    ensures Holds(p, rows, start, f, g)
  {
    forall i, j | InCells(p, rows, i, j) ensures HoldsCell(p, rows, start, f, g, i, j) {
      assert ExtendsCell(p, rows, start, f, g, i, j);
    }
  }

  /** A first phase gets the rank's rows right if the rows within the stencil's reach are. */
  lemma PhaseOneHolds(p: Params, rows: int, start: int, second: bool, dt: real, f: Field, g: Grid)
    requires Shape(g, p.nx, p.ny) && 0 <= start && start + rows <= p.ny
    requires ExtendsWithin(p, rows, start, f, g, Reach(second))
    ensures Holds(p, rows, start, PhaseOne(p, rows, second, dt, f), Floors(p, Euler(p, dt, g, Rhs(p, second, g))))
  {
    hide PhaseOne;
    hide Floors;
    hide ExtendsCell;
    hide HoldsCell;
    forall i, j | InCells(p, rows, i, j)
      ensures HoldsCell(p, rows, start, PhaseOne(p, rows, second, dt, f),
          Floors(p, Euler(p, dt, g, Rhs(p, second, g))), i, j)
    {
      PhaseOneCell(p, rows, start, second, dt, f, g, i, j);
    }
  }

  lemma PhaseOneCell(p: Params, rows: int, start: int, second: bool, dt: real, f: Field, g: Grid, i: int, j: int)
    requires Shape(g, p.nx, p.ny) && 0 <= start && start + rows <= p.ny
    requires ExtendsWithin(p, rows, start, f, g, Reach(second)) && InCells(p, rows, i, j)
    ensures HoldsCell(p, rows, start, PhaseOne(p, rows, second, dt, f),
                      Floors(p, Euler(p, dt, g, Rhs(p, second, g))), i, j)
  {
    hide Regularize;
    hide RhsCell;
    hide FieldRhsCell;
    hide Add;
    hide Scale;
    assert InField(p, rows, i, j) && Near(p, rows, Reach(second), i, j);
    assert ExtendsCell(p, rows, start, f, g, i, j);
    RhsCellsAgree(p, rows, start, second, f, g, i, j);
  }

  /** A second phase needs the rows around only of the intermediate state. */
  lemma PhaseTwoHolds(p: Params, rows: int, start: int, dt: real, f: Field, s: Field, g: Grid, h: Grid)
    requires Shape(g, p.nx, p.ny) && Shape(h, p.nx, p.ny) && 0 <= start && start + rows <= p.ny
    requires Holds(p, rows, start, f, g) && ExtendsWithin(p, rows, start, s, h, Reach(true))
    ensures Holds(p, rows, start, PhaseTwo(p, rows, dt, f, s), Floors(p, Heun(p, dt, g, h, Rhs(p, true, h))))
  {
    hide PhaseTwo;
    hide Floors;
    hide ExtendsCell;
    hide HoldsCell;
    forall i, j | InCells(p, rows, i, j)
      ensures HoldsCell(p, rows, start, PhaseTwo(p, rows, dt, f, s),
                        Floors(p, Heun(p, dt, g, h, Rhs(p, true, h))), i, j)
    {
      PhaseTwoCell(p, rows, start, dt, f, s, g, h, i, j);
    }
  }

  lemma PhaseTwoCell(p: Params, rows: int, start: int, dt: real, f: Field, s: Field, g: Grid, h: Grid, i: int, j: int)
    requires Shape(g, p.nx, p.ny) && Shape(h, p.nx, p.ny) && 0 <= start && start + rows <= p.ny
    requires Holds(p, rows, start, f, g) && ExtendsWithin(p, rows, start, s, h, Reach(true)) && InCells(p, rows, i, j)
    ensures HoldsCell(p, rows, start, PhaseTwo(p, rows, dt, f, s), Floors(p, Heun(p, dt, g, h, Rhs(p, true, h))), i, j)
  {
    hide Regularize;
    hide RhsCell;
    hide FieldRhsCell;
    hide Average;
    assert InField(p, rows, i, j) && Near(p, rows, Reach(true), i, j);
    assert HoldsCell(p, rows, start, f, g, i, j) && ExtendsCell(p, rows, start, s, h, i, j);
    RhsCellsAgree(p, rows, start, true, s, h, i, j);
  }

  /** The first-order flux ignores the outer cells of its stencil. */
  lemma FirstOrderFace(p: Params, dir: Direction, ll: State, ll': State, l: State, r: State, rr: State, rr': State)
    ensures FaceFlux(p, false, dir, ll, l, r, rr) == FaceFlux(p, false, dir, ll', l, r, rr')
  {
    hide RiemannFlux;
    hide Regularize;
  }

  lemma RhsCellsAgree(p: Params, rows: int, start: int, second: bool, f: Field, g: Grid, i: int, j: int)
    requires Shape(g, p.nx, p.ny) && 0 <= start && start + rows <= p.ny
    requires ExtendsWithin(p, rows, start, f, g, Reach(second)) && InCells(p, rows, i, j)
    ensures FieldRhsCell(p, rows, second, f, i, j) == RhsCell(p, second, g, i - p.ng, start + j - p.ng)
  {
    hide Divergence;
    hide FaceFlux;
    var x, y := i - p.ng, start + j - p.ng;
    assert ExtendsCell(p, rows, start, f, g, i, j);
    assert ExtendsCell(p, rows, start, f, g, i - 2, j) && ExtendsCell(p, rows, start, f, g, i - 1, j);
    assert ExtendsCell(p, rows, start, f, g, i + 1, j) && ExtendsCell(p, rows, start, f, g, i + 2, j);
    assert ExtendsCell(p, rows, start, f, g, i, j - 1) && ExtendsCell(p, rows, start, f, g, i, j + 1);
    assert f[j][i] == At(p, g, x, y) == g[y][x];
    if second {
      assert ExtendsCell(p, rows, start, f, g, i, j - 2) && ExtendsCell(p, rows, start, f, g, i, j + 2);
    } else {
      FirstOrderFace(p, Y, f[j - 2][i], At(p, g, x, y - 2), f[j - 1][i], f[j][i], f[j + 1][i], At(p, g, x, y + 1));
      FirstOrderFace(p, Y, f[j - 1][i], At(p, g, x, y - 1), f[j][i], f[j + 1][i], f[j + 2][i], At(p, g, x, y + 2));
    }
    hide At;
  }
}
