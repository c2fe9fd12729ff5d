/** The solver object of one rank: flat arrays updated in place, each method proved to carry out
    the corresponding function on rank fields. */
module Mhd2d {
  import opened Wrappers
  import opened States
  import opened Physics
  import opened PeriodicGrid
  import opened RankField
  import opened RowSplit
  import opened MachineWords
  import opened Layout
  import Arithmetic
  import opened Cluster
  import opened Sums
  import opened Positivity
  import opened Reductions

  /** The eight running sums and three running maxima of the diagnostics. */
  datatype Accumulator = Accumulator(
    rho: real, kin: real, mag: real, int_: real, tot: real, pres: real, j2: real, divb2: real,
    speed: real, jabs: real, divb: real)
  {
    function SumOf(q: Quantity): real {
      match q
      case Density => rho
      case Kinetic => kin
      case Magnetic => mag
      case Internal => int_
      case EnergyTotal => tot
      case Pressure => pres
      case CurrentSquared => j2
      case DivergenceSquared => divb2
    }

    function MaxOf(q: Extreme): real {
      match q
      case FlowSpeed => speed
      case Current => jabs
      case FieldDivergence => divb
    }

    predicate NonNegativeMaxima() {
      0.0 <= speed && 0.0 <= jabs && 0.0 <= divb
    }

    /** The accumulator after one more cell. */
    function Add(p: Params, c: State, w: State, e: State, s: State, n: State): Accumulator {
      Accumulator(
        rho + Summand(p, Density, c, w, e, s, n), kin + Summand(p, Kinetic, c, w, e, s, n),
        mag + Summand(p, Magnetic, c, w, e, s, n), int_ + Summand(p, Internal, c, w, e, s, n),
        tot + Summand(p, EnergyTotal, c, w, e, s, n), pres + Summand(p, Pressure, c, w, e, s, n),
        j2 + Summand(p, CurrentSquared, c, w, e, s, n), divb2 + Summand(p, DivergenceSquared, c, w, e, s, n),
        Max(speed, Candidate(p, FlowSpeed, c, w, e, s, n)), Max(jabs, Candidate(p, Current, c, w, e, s, n)),
        Max(divb, Candidate(p, FieldDivergence, c, w, e, s, n)))
    }
  }

  function Combine(a: Accumulator, b: Accumulator): Accumulator {
    Accumulator(a.rho + b.rho, a.kin + b.kin, a.mag + b.mag, a.int_ + b.int_, a.tot + b.tot, a.pres + b.pres,
                a.j2 + b.j2, a.divb2 + b.divb2, Max(a.speed, b.speed), Max(a.jabs, b.jabs), Max(a.divb, b.divb))
  }

  lemma CombineAdds(a: Accumulator, b: Accumulator)
    ensures forall q :: Combine(a, b).SumOf(q) == a.SumOf(q) + b.SumOf(q)
    ensures forall x :: Combine(a, b).MaxOf(x) == Max(a.MaxOf(x), b.MaxOf(x))
  {
  }

  class MHD2D {
    const p: Params
    const rank: int
    const size: int
    const rows: int
    const offset: int
    const u: array<real>
    const rhs: array<real>
    const stage: array<real>
    const rhsStage: array<real>

    predicate Valid() {
      && 0 <= rank < size <= p.ny
      && rows == BlockSize(p.ny, size, rank) && offset == BlockStart(p.ny, size, rank) && 1 <= rows
      && Fits(u) && Fits(rhs) && Fits(stage) && Fits(rhsStage)
      && u != rhs && u != stage && u != rhsStage && rhs != stage && rhs != rhsStage && stage != rhsStage
    }

    ghost function Arrays(): set<object> {
      {u, rhs, stage, rhsStage}
    }

    predicate Fits(a: array<real>) {
      1 <= rows && Sized(a.Length, Width(p), Height(p, rows))
    }

    ghost predicate AllZero(a: array<real>)
      reads a
    {
      forall k :: 0 <= k < a.Length ==> a[k] == 0.0
    }

    /** The field an array holds. */
    ghost function View(a: array<real>): (f: Field)
      requires Fits(a)
      reads a
      ensures IsField(p, rows, f)
    {
      Snap(a[..], Width(p), Height(p, rows))
    }

    /** The constructor proper; `Create` carries its range check. */
    constructor (p: Params, rank: int, size: int)
      requires 0 <= rank < size <= p.ny
      ensures Valid() && this.p == p && this.rank == rank && this.size == size
      ensures fresh(u) && fresh(rhs) && fresh(stage) && fresh(rhsStage)
      ensures AllZero(u) && AllZero(rhs) && AllZero(stage) && AllZero(rhsStage)
    {
      this.p := p;
      this.rank := rank;
      this.size := size;
      var base := p.ny / size;
      var rem := p.ny % size;
      var rows := base + (if rank < rem then 1 else 0);
      AtLeastOne(p.ny, size);
      this.rows := rows;
      this.offset := rank * base + (if rank < rem then rank else rem);
      var n := NUM_VARS * Height(p, rows) * Width(p);
      TotalSize(Height(p, rows), Width(p));
      this.u := new real[n](_ => 0.0);
      this.rhs := new real[n](_ => 0.0);
      this.stage := new real[n](_ => 0.0);
      this.rhsStage := new real[n](_ => 0.0);
    }

    static method Create(p: Params, rank: int, size: int) returns (r: Result<MHD2D>)
      requires 0 <= rank < size
      ensures r.Failure? <==> p.ny < size
      ensures r.Success? ==> r.value.Valid() && fresh(r.value)
      ensures r.Success? ==> r.value.p == p && r.value.rank == rank && r.value.size == size
    {
      if p.ny < size {
        return Failure("ny must be >= MPI size for this 1D decomposition");
      }
      var m := new MHD2D(p, rank, size);
      return Success(m);
    }

    // ----- Halo fill -----

    /** The x part of `fill_boundaries`: both ghost columns of every row. */
    method FillColumns(a: array<real>)
      requires Fits(a)
      modifies a
      ensures View(a) == FillX(p, rows, old(View(a)))
    {
      hide VarAt;
      hide Sized;
      var w, h, ng := Width(p), Height(p, rows), p.ng;
      ghost var before := a[..];
      for v := 0 to NUM_VARS
        invariant ColumnsFilled(a[..], before, v, 0, 0)
      {
        for j := 0 to h
          invariant ColumnsFilled(a[..], before, v, j, 0)
        {
          for g := 0 to ng
            invariant ColumnsFilled(a[..], before, v, j, g)
          {
            assert InBox(w, h, v, p.nx + g, j) && InBox(w, h, v, ng + g, j);
            var x := Fetch(a, w, h, v, p.nx + g, j);
            Put(a, w, h, v, g, j, x);
            x := Fetch(a, w, h, v, ng + g, j);
            Put(a, w, h, v, ng + p.nx + g, j, x);
          }
        }
      }
      ColumnsFilledAll(a[..], before);
    }

    /** Every ghost entry before (v, j, g) in loop order holds its periodic copy. */
    ghost predicate ColumnsFilled(data: seq<real>, before: seq<real>, v: int, j: int, g: int) {
      && 1 <= rows && |data| == |before| && Sized(|data|, Width(p), Height(p, rows))
      && forall v', i', j' :: InBox(Width(p), Height(p, rows), v', i', j') ==>
           VarAt(data, Width(p), Height(p, rows), v', i', j')
             == VarAt(before, Width(p), Height(p, rows), v',
                 if ColumnDone(v, j, g, v', i', j') then HaloSource(i', p.nx, p.ng) else i', j')
    }

    predicate ColumnDone(v: int, j: int, g: int, v': int, i': int, j': int) {
      v' < v || (v' == v && (j' < j || (j' == j && (i' < g || p.ng <= i' < p.ng + p.nx + g))))
    }

    lemma ColumnsFilledAll(data: seq<real>, before: seq<real>)
      requires ColumnsFilled(data, before, NUM_VARS, 0, 0)
      ensures Snap(data, Width(p), Height(p, rows)) == FillX(p, rows, Snap(before, Width(p), Height(p, rows)))
    {
      hide VarAt;
      hide Sized;
      var w, h := Width(p), Height(p, rows);
      var g: Field := FillX(p, rows, Snap(before, w, h));
      forall v: int, i: int, j: int | InBox(w, h, v, i, j) ensures VarAt(data, w, h, v, i, j) == g[j][i].Get(v) {
        assert InField(p, rows, i, j);
        CellGet(before, w, h, HaloSource(i, p.nx, p.ng), j, v);
      }
      hide Cell;
      SnapByVars(data, w, h, g);
    }

    /** The y part on a lone rank: both ghost rows of every column. */
    method FillRows(a: array<real>)
      requires Fits(a) && p.ng <= rows
      modifies a
      ensures View(a) == FillY(p, rows, old(View(a)))
    {
      hide VarAt;
      hide Sized;
      var w, h, ng := Width(p), Height(p, rows), p.ng;
      ghost var before := a[..];
      for v := 0 to NUM_VARS
        invariant RowsFilled(a[..], before, v, 0, 0)
      {
        for i := 0 to w
          invariant RowsFilled(a[..], before, v, i, 0)
        {
          for g := 0 to ng
            invariant RowsFilled(a[..], before, v, i, g)
          {
            assert InBox(w, h, v, i, rows + g) && InBox(w, h, v, i, ng + g);
            var x := Fetch(a, w, h, v, i, rows + g);
            Put(a, w, h, v, i, g, x);
            x := Fetch(a, w, h, v, i, ng + g);
            Put(a, w, h, v, i, ng + rows + g, x);
          }
        }
      }
      RowsFilledAll(a[..], before);
    }

    ghost predicate RowsFilled(data: seq<real>, before: seq<real>, v: int, i: int, g: int) {
      && p.ng <= rows && |data| == |before| && Sized(|data|, Width(p), Height(p, rows))
      && forall v', i', j' :: InBox(Width(p), Height(p, rows), v', i', j') ==>
           VarAt(data, Width(p), Height(p, rows), v', i', j')
             == VarAt(before, Width(p), Height(p, rows), v', i',
                 if RowDone(v, i, g, v', i', j') then HaloSource(j', rows, p.ng) else j')
    }

    predicate RowDone(v: int, i: int, g: int, v': int, i': int, j': int) {
      v' < v || (v' == v && (i' < i || (i' == i && (j' < g || p.ng <= j' < p.ng + rows + g))))
    }

    lemma RowsFilledAll(data: seq<real>, before: seq<real>)
      requires RowsFilled(data, before, NUM_VARS, 0, 0)
      ensures Snap(data, Width(p), Height(p, rows)) == FillY(p, rows, Snap(before, Width(p), Height(p, rows)))
    {
      hide VarAt;
      hide Sized;
      var w, h := Width(p), Height(p, rows);
      var g: Field := FillY(p, rows, Snap(before, w, h));
      forall v: int, i: int, j: int | InBox(w, h, v, i, j) ensures VarAt(data, w, h, v, i, j) == g[j][i].Get(v) {
        CellGet(before, w, h, i, HaloSource(j, rows, p.ng), v);
      }
      hide Cell;
      SnapByVars(data, w, h, g);
    }

    /** `fill_boundaries` on a lone rank. */
    method FillBoundaries(a: array<real>)
      requires Fits(a) && p.ng <= rows
      modifies a
      ensures View(a) == FillY(p, rows, FillX(p, rows, old(View(a))))
    {
      FillColumns(a);
      FillRows(a);
    }

    // ----- Messages -----

    /** Copies `ng` rows from row j0 into a send buffer, in (variable, row, column) order. */
    method PackRows(a: array<real>, j0: int) returns (buf: array<real>)
      requires Fits(a) && 0 <= j0 && j0 + p.ng <= Height(p, rows)
      ensures fresh(buf) && Sized(buf.Length, Width(p), p.ng)
      ensures Snap(buf[..], Width(p), p.ng) == View(a)[j0..j0 + p.ng]
    {
      var w, h, ng := Width(p), Height(p, rows), p.ng;
      buf := NewBox(w, ng);
      PlacesNonNegative(buf.Length, w, ng);
      hide VarAt;
      hide Sized;
      var c := 0;
      for v := 0 to NUM_VARS
        invariant c == Idx(w, ng, v, 0, 0) && Packed(buf[..], ng, a[..], w, h, j0, c)
      {
        for g := 0 to ng
          invariant c == Idx(w, ng, v, 0, g) && Packed(buf[..], ng, a[..], w, h, j0, c)
        {
          for i := 0 to w
            invariant c == Idx(w, ng, v, i, g) && Packed(buf[..], ng, a[..], w, h, j0, c)
          {
            IdxInRange(buf.Length, w, ng, v, i, g);
            var x := Fetch(a, w, h, v, i, j0 + g);
            ghost var before := buf[..];
            buf[c] := x;
            PackedGrows(before, buf[..], ng, a[..], w, h, j0, v, i, g, c);
            c := c + 1;
          }
          IdxNextLine(w, ng, v, g);
        }
        IdxNextLayer(w, ng, v);
      }
      PackedAll(buf[..], ng, a[..], w, h, j0);
    }

    /** Copies a received buffer into `ng` rows from row j0. */
    method UnpackRows(a: array<real>, j0: int, buf: array<real>)
      requires Fits(a) && a != buf && Sized(buf.Length, Width(p), p.ng) && 0 <= j0 && j0 + p.ng <= Height(p, rows)
      modifies a
      ensures View(a) == ReplaceRows(old(View(a)), j0, Snap(buf[..], Width(p), p.ng))
    {
      var w, h, ng := Width(p), Height(p, rows), p.ng;
      PlacesNonNegative(buf.Length, w, ng);
      hide VarAt;
      hide Sized;
      ghost var before := a[..];
      var c := 0;
      for v := 0 to NUM_VARS
        invariant c == Idx(w, ng, v, 0, 0) && Unpacked(a[..], before, w, h, buf[..], ng, j0, c)
      {
        for g := 0 to ng
          invariant c == Idx(w, ng, v, 0, g) && Unpacked(a[..], before, w, h, buf[..], ng, j0, c)
        {
          for i := 0 to w
            invariant c == Idx(w, ng, v, i, g) && Unpacked(a[..], before, w, h, buf[..], ng, j0, c)
          {
            IdxInRange(buf.Length, w, ng, v, i, g);
            ghost var now := a[..];
            Put(a, w, h, v, i, j0 + g, buf[c]);
            UnpackedGrows(now, a[..], before, w, h, buf[..], ng, j0, v, i, g, c);
            c := c + 1;
          }
          IdxNextLine(w, ng, v, g);
        }
        IdxNextLayer(w, ng, v);
      }
      UnpackedAll(a[..], before, w, h, buf[..], ng, j0);
    }

    /** The send half of the exchange, after the x fill. */
    method PackHalos(a: array<real>) returns (bottom: array<real>, top: array<real>)
      requires Fits(a)
      modifies a
      ensures View(a) == FillX(p, rows, old(View(a)))
      ensures fresh(bottom) && Sized(bottom.Length, Width(p), p.ng) &&
          Snap(bottom[..], Width(p), p.ng) == BottomRows(p, rows, View(a))
      ensures fresh(top) && Sized(top.Length, Width(p), p.ng) &&
          Snap(top[..], Width(p), p.ng) == TopRows(p, rows, View(a))
    {
      FillColumns(a);
      bottom := PackRows(a, p.ng);
      top := PackRows(a, rows);
    }

    /** The receive half: rows from below go to the first ghost rows, rows from above to the last. */
    method UnpackHalos(a: array<real>, bottom: array<real>, top: array<real>)
      requires Fits(a) && a != bottom && a != top
      requires Sized(bottom.Length, Width(p), p.ng) && Sized(top.Length, Width(p), p.ng)
      modifies a
      ensures View(a) == PutHalos(p, rows, old(View(a)), Snap(bottom[..], Width(p), p.ng),
          Snap(top[..], Width(p), p.ng))
    {
      hide Sized;
      hide Snap;
      hide ReplaceRows;
      ghost var before := View(a);
      UnpackRows(a, 0, bottom);
      UnpackRows(a, p.ng + rows, top);
      BothHalosReplaced(before, Snap(bottom[..], Width(p), p.ng), Snap(top[..], Width(p), p.ng));
    }

    lemma BothHalosReplaced(f: Field, bottom: Grid, top: Grid)
      requires IsField(p, rows, f) && Shape(bottom, Width(p), p.ng) && Shape(top, Width(p), p.ng)
      ensures ReplaceRows(ReplaceRows(f, 0, bottom), p.ng + rows, top) == PutHalos(p, rows, f, bottom, top)
    {
    }

    // ----- Right-hand side -----

    /** `compute_rhs`: fluxes through all faces first, stored flat, then their differences. */
    method ComputeRhs(a: array<real>, r: array<real>, second: bool)
      requires Fits(a) && Fits(r) && a != r
      modifies r
      ensures View(r) == FieldRhs(p, rows, second, View(a))
    {
      hide Sized;
      hide Cell;
      hide FaceX;
      hide FaceY;
      hide Divergence;
      ZeroFill(r);
      var fx := ComputeFluxX(a, second);
      var fy := ComputeFluxY(a, second);
      var w, h, ng, nx := Width(p), Height(p, rows), p.ng, p.nx;
      ghost var f, xs, ys := View(a), fx[..], fy[..];
      for jlocal := 0 to rows
        invariant fx[..] == xs && fy[..] == ys
        invariant forall i', j' :: InField(p, rows, i', j') ==>
                    Cell(r[..], w, h, i', j') ==
                      (if InCells(p, rows, i', j') && j' < ng + jlocal then RhsFromFaces(second, f, i', j') else ZERO)
      {
        var j := ng + jlocal;
        for ilocal := 0 to nx
          invariant fx[..] == xs && fy[..] == ys
          invariant forall i', j' :: InField(p, rows, i', j') ==>
                      Cell(r[..], w, h, i', j') ==
                        (if InCells(p, rows, i', j') && (j' < j || (j' == j && i' < ng + ilocal))
                         then RhsFromFaces(second, f, i', j') else ZERO)
        {
          var i := ng + ilocal;
          assert InField(p, rows, i, j);
          var c := LoadState(a, w, h, i, j);
          var west := LoadState(fx, nx + 1, rows, ilocal, jlocal);
          var east := LoadState(fx, nx + 1, rows, ilocal + 1, jlocal);
          var south := LoadState(fy, nx, rows + 1, ilocal, jlocal);
          var north := LoadState(fy, nx, rows + 1, ilocal, jlocal + 1);
          assert Divergence(p, c, west, east, south, north) == RhsFromFaces(second, f, i, j);
          StoreState(r, w, h, i, j, Divergence(p, c, west, east, south, north));
        }
      }
      RhsFieldFromFaces(r[..], second, f);
    }

    ghost function RhsFromFaces(second: bool, f: Field, i: int, j: int): State
      requires IsField(p, rows, f) && InCells(p, rows, i, j)
    {
      var il, jl := i - p.ng, j - p.ng;
      Divergence(p, f[j][i], FaceX(second, f, il, jl), FaceX(second, f, il + 1, jl),
                 FaceY(second, f, il, jl), FaceY(second, f, il, jl + 1))
    }

    lemma RhsFieldFromFaces(data: seq<real>, second: bool, f: Field)
      requires 1 <= rows && Sized(|data|, Width(p), Height(p, rows)) && IsField(p, rows, f)
      requires forall i, j :: InField(p, rows, i, j) ==>
                 Cell(data, Width(p), Height(p, rows), i, j)
                     == (if InCells(p, rows, i, j) then RhsFromFaces(second, f, i, j) else ZERO)
      ensures Snap(data, Width(p), Height(p, rows)) == FieldRhs(p, rows, second, f)
    {
      hide Cell;
      hide Sized;
      hide Divergence;
      hide FaceFlux;
      forall i, j | InCells(p, rows, i, j)
        ensures RhsFromFaces(second, f, i, j) == FieldRhsCell(p, rows, second, f, i, j)
      {
      }
      hide RhsFromFaces;
      hide FieldRhsCell;
      SnapIsField(data, FieldRhs(p, rows, second, f));
    }

    /** The flux through face `iface` of local row `jlocal`, and through face `jface` of local
        column `ilocal`. */
    ghost function FaceX(second: bool, f: Field, iface: int, jlocal: int): State
      requires IsField(p, rows, f) && 0 <= iface <= p.nx && 0 <= jlocal < rows
    {
      var i, j := p.ng + iface, p.ng + jlocal;
      FaceFlux(p, second, X, f[j][i - 2], f[j][i - 1], f[j][i], f[j][i + 1])
    }

    ghost function FaceY(second: bool, f: Field, ilocal: int, jface: int): State
      requires IsField(p, rows, f) && 0 <= ilocal < p.nx && 0 <= jface <= rows
    {
      var i, j := p.ng + ilocal, p.ng + jface;
      FaceFlux(p, second, Y, f[j - 2][i], f[j - 1][i], f[j][i], f[j + 1][i])
    }

    method ZeroFill(r: array<real>)
      requires Fits(r)
      modifies r
      ensures forall i, j :: InField(p, rows, i, j) ==> Cell(r[..], Width(p), Height(p, rows), i, j) == ZERO
    {
      forall k | 0 <= k < r.Length { r[k] := 0.0; }
      hide Cell;
      hide Sized;
      forall i, j | InField(p, rows, i, j) ensures Cell(r[..], Width(p), Height(p, rows), i, j) == ZERO {
        ZerosAreZero(r[..], Width(p), Height(p, rows), i, j);
      }
    }

    /** The flux through one face: reconstruct, regularize, solve. */
    method FluxThroughX(a: array<real>, second: bool, iface: int, jlocal: int) returns (flux: State)
      requires Fits(a) && 0 <= iface <= p.nx && 0 <= jlocal < rows
      ensures flux == FaceX(second, View(a), iface, jlocal)
    {
      hide Sized;
      hide Cell;
      hide Slope;
      hide Regularize;
      hide RiemannFlux;
      hide Add;
      hide Sub;
      hide Scale;
      var w, h := Width(p), Height(p, rows);
      var j, iRight := p.ng + jlocal, p.ng + iface;
      var iLeft := iRight - 1;
      var l := LoadState(a, w, h, iLeft, j);
      var r := LoadState(a, w, h, iRight, j);
      var left, right := l, r;
      if second {
        var ll := LoadState(a, w, h, iLeft - 1, j);
        var rr := LoadState(a, w, h, iRight + 1, j);
        left := Add(left, Scale(0.5, Slope(ll, l, r)));
        right := Sub(right, Scale(0.5, Slope(l, r, rr)));
      }
      left := Regularize(p, left);
      right := Regularize(p, right);
      flux := RiemannFlux(p, left, right, X);
    }

    method FluxThroughY(a: array<real>, second: bool, ilocal: int, jface: int) returns (flux: State)
      requires Fits(a) && 0 <= ilocal < p.nx && 0 <= jface <= rows
      ensures flux == FaceY(second, View(a), ilocal, jface)
    {
      hide Sized;
      hide Cell;
      hide Slope;
      hide Regularize;
      hide RiemannFlux;
      hide Add;
      hide Sub;
      hide Scale;
      var w, h := Width(p), Height(p, rows);
      var i, jTop := p.ng + ilocal, p.ng + jface;
      var jBottom := jTop - 1;
      var b := LoadState(a, w, h, i, jBottom);
      var t := LoadState(a, w, h, i, jTop);
      var bottom, top := b, t;
      if second {
        var bb := LoadState(a, w, h, i, jBottom - 1);
        var tt := LoadState(a, w, h, i, jTop + 1);
        bottom := Add(bottom, Scale(0.5, Slope(bb, b, t)));
        top := Sub(top, Scale(0.5, Slope(b, t, tt)));
      }
      bottom := Regularize(p, bottom);
      top := Regularize(p, top);
      flux := RiemannFlux(p, bottom, top, Y);
    }

    method ComputeFluxX(a: array<real>, second: bool) returns (fx: array<real>)
      requires Fits(a)
      ensures fresh(fx) && Sized(fx.Length, p.nx + 1, rows)
      ensures forall iface, jlocal :: 0 <= iface <= p.nx && 0 <= jlocal < rows ==>
                Cell(fx[..], p.nx + 1, rows, iface, jlocal) == FaceX(second, View(a), iface, jlocal)
    {
      hide Sized;
      hide Cell;
      hide Snap;
      var nx := p.nx;
      fx := NewBox(nx + 1, rows);
      ghost var f := View(a);
      hide FaceX;
      for jlocal := 0 to rows
        invariant forall i', j' :: 0 <= i' <= nx && 0 <= j' < jlocal ==>
                    Cell(fx[..], nx + 1, rows, i', j') == FaceX(second, f, i', j')
      {
        for iface := 0 to nx + 1
          invariant forall i', j' :: 0 <= i' <= nx && 0 <= j' <= jlocal && (j' < jlocal || i' < iface) ==>
                      Cell(fx[..], nx + 1, rows, i', j') == FaceX(second, f, i', j')
        {
          var flux := FluxThroughX(a, second, iface, jlocal);
          StoreState(fx, nx + 1, rows, iface, jlocal, flux);
        }
      }
    }

    method ComputeFluxY(a: array<real>, second: bool) returns (fy: array<real>)
      requires Fits(a)
      ensures fresh(fy) && Sized(fy.Length, p.nx, rows + 1)
      ensures forall ilocal, jface :: 0 <= ilocal < p.nx && 0 <= jface <= rows ==>
                Cell(fy[..], p.nx, rows + 1, ilocal, jface) == FaceY(second, View(a), ilocal, jface)
    {
      hide Sized;
      hide Cell;
      hide Snap;
      var nx := p.nx;
      fy := NewBox(nx, rows + 1);
      ghost var f := View(a);
      hide FaceY;
      for jface := 0 to rows + 1
        invariant forall i', j' :: 0 <= i' < nx && 0 <= j' < jface ==>
                    Cell(fy[..], nx, rows + 1, i', j') == FaceY(second, f, i', j')
      {
        for ilocal := 0 to nx
          invariant forall i', j' :: 0 <= i' < nx && 0 <= j' <= jface && (j' < jface || i' < ilocal) ==>
                      Cell(fy[..], nx, rows + 1, i', j') == FaceY(second, f, i', j')
        {
          var flux := FluxThroughY(a, second, ilocal, jface);
          StoreState(fy, nx, rows + 1, ilocal, jface, flux);
        }
      }
    }

    // ----- Interior updates -----

    method EnforceFloors(a: array<real>)
      requires Fits(a)
      modifies a
      ensures View(a) == FieldFloors(p, rows, old(View(a)))
    {
      hide Sized;
      hide Cell;
      hide ToPrimitive;
      hide ToConserved;
      var w, h, ng := Width(p), Height(p, rows), p.ng;
      ghost var f := View(a);
      for j := ng to ng + rows
        invariant forall i', j' :: InField(p, rows, i', j') ==>
                    Cell(a[..], w, h, i', j') ==
                      (if InCells(p, rows, i', j') && j' < j then Regularize(p, f[j'][i']) else f[j'][i'])
      {
        for i := ng to ng + p.nx
          invariant forall i', j' :: InField(p, rows, i', j') ==>
                      Cell(a[..], w, h, i', j') ==
                        (if InCells(p, rows, i', j') && (j' < j || (j' == j && i' < i))
                         then Regularize(p, f[j'][i']) else f[j'][i'])
        {
          assert InField(p, rows, i, j);
          var s := LoadState(a, w, h, i, j);
          var prim := ToPrimitive(p, s);
          s := ToConserved(p, prim);
          StoreState(a, w, h, i, j, s);
        }
      }
      SnapIsField(a[..], FieldFloors(p, rows, f));
    }

    lemma SnapIsField(data: seq<real>, g: Field)
      requires 1 <= rows && Sized(|data|, Width(p), Height(p, rows)) && IsField(p, rows, g)
      requires forall i, j :: InField(p, rows, i, j) ==> Cell(data, Width(p), Height(p, rows), i, j) == g[j][i]
      ensures Snap(data, Width(p), Height(p, rows)) == g
    {
      hide Cell;
      forall i, j | 0 <= i < Width(p) && 0 <= j < Height(p, rows)
        ensures g[j][i] == Cell(data, Width(p), Height(p, rows), i, j)
      {
        assert InField(p, rows, i, j);
      }
      SnapIs(data, Width(p), Height(p, rows), g);
    }

    /** `at(a) += dt * at(r)` over the interior. */
    method AddScaled(a: array<real>, dt: real, r: array<real>)
      requires Fits(a) && Fits(r) && a != r
      modifies a
      ensures View(a) == FieldEuler(p, rows, dt, old(View(a)), View(r))
    {
      hide Sized;
      hide Cell;
      hide Add;
      hide Scale;
      var w, h, ng := Width(p), Height(p, rows), p.ng;
      ghost var f, q := View(a), View(r);
      for j := ng to ng + rows
        invariant forall i', j' :: InField(p, rows, i', j') ==>
                    Cell(a[..], w, h, i', j') ==
                      (if InCells(p, rows, i', j') && j' < j then Add(f[j'][i'], Scale(dt, q[j'][i'])) else f[j'][i'])
      {
        for i := ng to ng + p.nx
          invariant forall i', j' :: InField(p, rows, i', j') ==>
                      Cell(a[..], w, h, i', j') ==
                        (if InCells(p, rows, i', j') && (j' < j || (j' == j && i' < i))
                         then Add(f[j'][i'], Scale(dt, q[j'][i'])) else f[j'][i'])
        {
          assert InField(p, rows, i, j);
          var s := LoadState(a, w, h, i, j);
          var d := LoadState(r, w, h, i, j);
          StoreState(a, w, h, i, j, Add(s, Scale(dt, d)));
        }
      }
      SnapIsField(a[..], FieldEuler(p, rows, dt, f, q));
    }

    /** The second Heun stage over the interior of `u`. */
    method AverageStages(dt: real)
      requires Valid()
      modifies u
      ensures View(u) == FieldHeun(p, rows, dt, old(View(u)), View(stage), View(rhsStage))
    {
      hide Sized;
      hide Cell;
      hide Average;
      hide BlockSize;
      hide BlockStart;
      var w, h, ng := Width(p), Height(p, rows), p.ng;
      ghost var f, g, q := View(u), View(stage), View(rhsStage);
      for j := ng to ng + rows
        invariant forall i', j' :: InField(p, rows, i', j') ==>
                    Cell(u[..], w, h, i', j') ==
                      (if InCells(p, rows, i', j') && j' < j
                       then Average(dt, f[j'][i'], g[j'][i'], q[j'][i']) else f[j'][i'])
      {
        for i := ng to ng + p.nx
          invariant forall i', j' :: InField(p, rows, i', j') ==>
                      Cell(u[..], w, h, i', j') ==
                        (if InCells(p, rows, i', j') && (j' < j || (j' == j && i' < i))
                         then Average(dt, f[j'][i'], g[j'][i'], q[j'][i']) else f[j'][i'])
        {
          assert InField(p, rows, i, j);
          var un := LoadState(u, w, h, i, j);
          var u1 := LoadState(stage, w, h, i, j);
          var rhs1 := LoadState(rhsStage, w, h, i, j);
          StoreState(u, w, h, i, j, Average(dt, un, u1, rhs1));
        }
      }
      SnapIsField(u[..], FieldHeun(p, rows, dt, f, g, q));
    }

    // ----- Advance -----

    /** The local part of a first-order step. */
    method UpdateFirstOrder(dt: real)
      requires Valid()
      modifies u, rhs
      ensures View(u) == PhaseOne(p, rows, false, dt, old(View(u)))
    {
      hide Sized;
      hide BlockSize;
      hide BlockStart;
      hide Snap;
      ComputeRhs(u, rhs, false);
      AddScaled(u, dt, rhs);
      EnforceFloors(u);
    }

    method CopyToStage()
      requires Valid()
      modifies stage
      ensures View(stage) == View(u)
    {
      forall k | 0 <= k < stage.Length { stage[k] := u[k]; }
      assert stage[..] == u[..];
    }

    /** The first half of the two-stage step: `u` is kept, the prediction goes to `stage`. */
    method PredictStage(dt: real)
      requires Valid()
      modifies rhs, stage
      ensures View(stage) == PhaseOne(p, rows, true, dt, View(u))
    {
      hide Sized;
      hide BlockSize;
      hide BlockStart;
      hide Snap;
      ComputeRhs(u, rhs, true);
      CopyToStage();
      AddScaled(stage, dt, rhs);
      EnforceFloors(stage);
    }

    /** The second half. */
    method CorrectFromStage(dt: real)
      requires Valid()
      modifies u, rhsStage
      ensures View(u) == PhaseTwo(p, rows, dt, old(View(u)), View(stage))
    {
      hide Sized;
      hide BlockSize;
      hide BlockStart;
      hide Snap;
      ComputeRhs(stage, rhsStage, true);
      AverageStages(dt);
      EnforceFloors(u);
    }

    /** `advance(dt)` on a lone rank: in place, flat, haloed, and yet one reference step. */
    method Advance(dt: real)
      requires Valid() && size == 1
      modifies u, rhs, stage, rhsStage
      ensures [View(u)] == ClusterAdvance(p, dt, [old(View(u))])
      ensures Extends(p, p.ny, 0, View(u), PeriodicGrid.Advance(p, dt, Interior(p, p.ny, old(View(u)))))
    {
      assert rows == Rows(p, 1, 0) == p.ny;
      ghost var before := View(u);
      hide Sized;
      hide Snap;
      hide PhaseOne;
      hide PhaseTwo;
      hide FillX;
      hide FillY;
      AdvanceIsReference(dt, before);
      FillBoundaries(u);
      if p.reconstruction == FirstOrder {
        UpdateFirstOrder(dt);
        FillBoundaries(u);
      } else {
        PredictStage(dt);
        FillBoundaries(stage);
        CorrectFromStage(dt);
        FillBoundaries(u);
      }
    }

    lemma AdvanceIsReference(dt: real, before: Field)
      requires Valid() && size == 1 && IsField(p, p.ny, before)
      ensures IsCluster(p, [before])
      ensures Extends(p, p.ny, 0, ClusterAdvance(p, dt, [before])[0],
          PeriodicGrid.Advance(p, dt, Interior(p, p.ny, before)))
    {
      assert Rows(p, 1, 0) == p.ny && Offset(p, 1, 0) == 0;
      hide BlockSize;
      hide BlockStart;
      var g := Interior(p, p.ny, before);
      InteriorHeld(p, before);
      hide Interior;
      hide Holds;
      hide ExtendsWithin;
      hide ClusterAdvance;
      hide PeriodicGrid.Advance;
      assert OwnsBlock(p, 1, 0, [before][0], g);
      AdvanceRefines(p, dt, [before], g, p.ng);
      assert HaloedBlock(p, 1, 0, ClusterAdvance(p, dt, [before])[0], PeriodicGrid.Advance(p, dt, g), p.ng);
    }

    // ----- Reductions -----

    /** One row of the search for the largest speed. */
    method LargestInRow(j: int, start: real) returns (m: real)
      requires Valid() && p.ng <= j < p.ng + rows && SPEED_FLOOR <= start
      ensures m == Max(start, RowLargest(p.nx, LocalSpeed(p, rows, View(u)), j - p.ng, SPEED_FLOOR))
    {
      hide Sized;
      hide Cell;
      hide SignalSpeed;
      hide BlockSize;
      hide BlockStart;
      hide Snap;
      hide LocalSpeed;
      hide Largest;
      var ng := p.ng;
      ghost var f := View(u);
      ghost var e := LocalSpeed(p, rows, f);
      ghost var row := i => e(i, j - ng);
      m := start;
      LargestNone(row, SPEED_FLOOR);
      for i := ng to ng + p.nx
        invariant m == Max(start, Largest(i - ng, row, SPEED_FLOOR))
      {
        LargestNext(i - ng, row, SPEED_FLOOR);
        LocalSpeedAt(p, rows, f, i, j);
        var s := LoadState(u, Width(p), Height(p, rows), i, j);
        var sx := SignalSpeed(p, s, X);
        var sy := SignalSpeed(p, s, Y);
        m := Max(m, sx);
        m := Max(m, sy);
      }
      LargestExt(p.nx, row, i => e(i, j - ng), SPEED_FLOOR);
    }

    /** The largest signal speed on this rank, as fed to the global reduction. */
    method LargestSpeed() returns (m: real)
      requires Valid()
      ensures m == LocalFastest(p, rows, View(u))
    {
      hide Sized;
      hide Snap;
      hide LocalSpeed;
      hide RowLargest;
      hide BlockSize;
      hide BlockStart;
      ghost var e := LocalSpeed(p, rows, View(u));
      ghost var rowMax := j => RowLargest(p.nx, e, j, SPEED_FLOOR);
      m := SPEED_FLOOR;
      for j := p.ng to p.ng + rows
        invariant m == Largest(j - p.ng, rowMax, SPEED_FLOOR)
      {
        LargestBounds(j - p.ng, rowMax, SPEED_FLOOR);
        m := LargestInRow(j, m);
      }
      LargestExt(rows, rowMax, j => RowLargest(p.nx, e, j, SPEED_FLOOR), SPEED_FLOOR);
      m := Max(m, p.glmCh);
    }

    /** `compute_time_step` on a lone rank. */
    method ComputeTimeStep() returns (dt: real)
      requires Valid() && size == 1
      ensures dt == ClusterTimeStep(p, [View(u)])
    {
      assert rows == Rows(p, 1, 0);
      if p.fixedDt > 0.0 {
        return p.fixedDt;
      }
      var m := LargestSpeed();
      assert RankFastest(p, [View(u)])(0) == m;
      dt := StepFor(p, m);
    }

    /** One cell of `compute_diagnostics`. */
    method DiagnoseCell(i: int, j: int, start: Accumulator) returns (acc: Accumulator)
      requires Fits(u) && InCells(p, rows, i, j) && start.NonNegativeMaxima()
      ensures acc.NonNegativeMaxima()
      ensures forall q :: acc.SumOf(q) == start.SumOf(q) + FieldCellSummand(p, rows, View(u), q, i, j)
      ensures forall q :: acc.MaxOf(q) == Max(start.MaxOf(q), FieldCellCandidate(p, rows, View(u), q, i, j))
    {
      hide Sized;
      hide Cell;
      hide Summand;
      hide Candidate;
      var w, h := Width(p), Height(p, rows);
      var c := LoadState(u, w, h, i, j);
      var west := LoadState(u, w, h, i - 1, j);
      var east := LoadState(u, w, h, i + 1, j);
      var south := LoadState(u, w, h, i, j - 1);
      var north := LoadState(u, w, h, i, j + 1);
      acc := start.Add(p, c, west, east, south, north);
    }

    /** One row of `compute_diagnostics`. */
    method DiagnoseRow(j: int, start: Accumulator) returns (acc: Accumulator)
      requires Fits(u) && p.ng <= j < p.ng + rows && start.NonNegativeMaxima()
      ensures acc.NonNegativeMaxima()
      ensures forall q :: acc.SumOf(q) == start.SumOf(q) + RowSum(p.nx, LocalSummand(p, rows, View(u), q), j - p.ng)
      ensures forall q ::
                acc.MaxOf(q) ==
                  Max(start.MaxOf(q), RowLargest(p.nx, LocalCandidate(p, rows, View(u), q), j - p.ng, 0.0))
    {
      hide Sized;
      hide Snap;
      hide FieldCellSummand;
      hide FieldCellCandidate;
      var ng := p.ng;
      ghost var f := View(u);
      acc := start;
      for i := ng to ng + p.nx
        invariant acc.NonNegativeMaxima()
        invariant forall q :: acc.SumOf(q) == start.SumOf(q) + RowSum(i - ng, LocalSummand(p, rows, f, q), j - ng)
        invariant forall q ::
                    acc.MaxOf(q) == Max(start.MaxOf(q), RowLargest(i - ng, LocalCandidate(p, rows, f, q), j - ng, 0.0))
      {
        acc := DiagnoseCell(i, j, acc);
        forall q ensures RowSum(i + 1 - ng, LocalSummand(p, rows, f, q), j - ng)
                      == RowSum(i - ng, LocalSummand(p, rows, f, q), j - ng) + FieldCellSummand(p, rows, f, q, i, j) {
          RowSumGrows(i - ng, j - ng, LocalSummand(p, rows, f, q));
        }
        forall q ensures RowLargest(i + 1 - ng, LocalCandidate(p, rows, f, q), j - ng, 0.0)
                      == Max(RowLargest(i - ng, LocalCandidate(p, rows, f, q), j - ng, 0.0),
                          FieldCellCandidate(p, rows, f, q, i, j)) {
          RowLargestGrows(i - ng, j - ng, LocalCandidate(p, rows, f, q), 0.0);
        }
      }
    }

    /** The sums and maxima this rank feeds to the global reductions. */
    method LocalDiagnostics() returns (acc: Accumulator)
      requires Valid()
      ensures forall q :: acc.SumOf(q) == GridSum(p.nx, rows, LocalSummand(p, rows, View(u), q))
      ensures forall q :: acc.MaxOf(q) == GridLargest(p.nx, rows, LocalCandidate(p, rows, View(u), q), 0.0)
    {
      hide Sized;
      hide Snap;
      hide LocalSummand;
      hide LocalCandidate;
      hide RowSum;
      hide RowLargest;
      hide BlockSize;
      hide BlockStart;
      acc := Accumulator(0.0, 0.0, 0.0, 0.0, 0.0, 0.0, 0.0, 0.0, 0.0, 0.0, 0.0);
      ghost var f := View(u);
      for j := p.ng to p.ng + rows
        invariant acc.NonNegativeMaxima()
        invariant forall q :: acc.SumOf(q) == GridSum(p.nx, j - p.ng, LocalSummand(p, rows, f, q))
        invariant forall q :: acc.MaxOf(q) == GridLargest(p.nx, j - p.ng, LocalCandidate(p, rows, f, q), 0.0)
      {
        ghost var before := acc;
        acc := DiagnoseRow(j, acc);
        forall q
          ensures acc.SumOf(q) == GridSum(p.nx, j + 1 - p.ng, LocalSummand(p, rows, f, q))
        {
          GridSumGrows(p.nx, j - p.ng, LocalSummand(p, rows, f, q));
        }
        forall q
          ensures acc.MaxOf(q) == GridLargest(p.nx, j + 1 - p.ng, LocalCandidate(p, rows, f, q), 0.0)
        {
          GridLargestGrows(p.nx, j - p.ng, LocalCandidate(p, rows, f, q), 0.0);
        }
      }
    }

    /** `compute_diagnostics` on a lone rank. */
    method ComputeDiagnostics() returns (d: ScalarDiagnostics)
      requires Valid() && size == 1
      ensures d == ClusterReport(p, [View(u)])
    {
      hide Sized;
      hide Snap;
      hide LocalSummand;
      hide LocalCandidate;
      hide GridSum;
      hide GridLargest;
      hide Mean;
      hide Times;
      assert rows == Rows(p, 1, 0);
      var acc := LocalDiagnostics();
      ghost var fs := [View(u)];
      forall q ensures acc.SumOf(q) == Sum(1, RankSum(p, fs, q)) {
        assert RankSum(p, fs, q)(0) == acc.SumOf(q);
      }
      forall x ensures acc.MaxOf(x) == ReduceMax(1, RankMax(p, fs, x)) {
        assert RankMax(p, fs, x)(0) == acc.MaxOf(x);
      }
      d := Report(p, acc.SumOf, acc.MaxOf);
    }
  }

  lemma TotalSize(h: int, w: int)
    requires 0 <= h && 0 <= w
    ensures 0 <= NUM_VARS * h * w
  {
    Arithmetic.NonNegativeTimes(NUM_VARS * h, w);
  }

  // ----- The width of the index -----

  /** Every index into the box fits an int. */
  ghost predicate IndicesFit(w: int, h: int) {
    forall v, i, j :: InBox(w, h, v, i, j) ==> 0 <= Idx(w, h, v, i, j) < TWO31
  }

  lemma Boxes(w: int, h: int)
    requires 0 < w && 0 < h
    ensures IndicesFit(w, h) <==> NUM_VARS * h * w <= TWO31
  {
    Arithmetic.NonNegativeTimes(NUM_VARS * h, w);
    hide Idx;
    IdxFitsIff(NUM_VARS * h * w, w, h);
  }

  lemma SmallerBox(w: int, h: int, w': int, h': int)
    requires 0 < w' <= w && 0 < h' <= h && IndicesFit(w, h)
    ensures IndicesFit(w', h')
  {
    hide IndicesFit;
    Boxes(w, h);
    Boxes(w', h');
    Arithmetic.NonNegativeTimes(w - w', NUM_VARS * h);
    Arithmetic.NonNegativeTimes(h - h', NUM_VARS * w');
    assert NUM_VARS * h * w == NUM_VARS * h' * w' + (w - w') * (NUM_VARS * h) + (h - h') * (NUM_VARS * w');
  }

  /** A rank's indices, into its fields, its face fluxes and its messages, all fit an int exactly when
      its field has at most 2^31 entries. */
  lemma RankIndicesFitIff(p: Params, rows: int)
    requires 1 <= rows
    ensures IndicesFit(Width(p), Height(p, rows)) <==> NUM_VARS * Height(p, rows) * Width(p) <= TWO31
    ensures IndicesFit(Width(p), Height(p, rows)) ==>
              IndicesFit(p.nx + 1, rows) && IndicesFit(p.nx, rows + 1) && IndicesFit(Width(p), p.ng)
  {
    hide IndicesFit;
    Boxes(Width(p), Height(p, rows));
    if IndicesFit(Width(p), Height(p, rows)) {
      SmallerBox(Width(p), Height(p, rows), p.nx + 1, rows);
      SmallerBox(Width(p), Height(p, rows), p.nx, rows + 1);
      SmallerBox(Width(p), Height(p, rows), Width(p), p.ng);
    }
  }

  /** A grid of 16384 by 16384 cells is too large for one rank, though the constructor takes it; two
      ranks can share it. */
  lemma LargeGridOverflows(p: Params)
    requires p.nx == p.ny == 16384 && p.ng == 2
    ensures Idx(Width(p), Height(p, Rows(p, 1, 0)), PSI, Width(p) - 1, Height(p, Rows(p, 1, 0)) - 1) == 2417098895
    ensures !IndicesFit(Width(p), Height(p, Rows(p, 1, 0)))
    ensures forall r :: 0 <= r < 2 ==> IndicesFit(Width(p), Height(p, Rows(p, 2, r)))
  {
    hide IndicesFit;
    RankIndicesFitIff(p, 16384);
    RankIndicesFitIff(p, 8192);
  }
}
