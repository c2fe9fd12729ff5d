/** When a distributed run is right: with the second-order scheme a rank of one row is too narrow.
    The run that shows it starts from correct halos and a fluid at rest in layers of two densities. */
module NarrowRanks {
  import opened States
  import opened Physics
  import opened FaceLemmas
  import opened PeriodicGrid
  import opened RankField
  import opened RowSplit
  import opened Cluster
  import opened RestLayers

  // ----- Filled halos stay filled -----

  lemma ExchangeKeepsHalos(p: Params, fs: seq<Field>, g: Grid)
    requires Haloed(p, fs, g)
    ensures Haloed(p, Exchange(p, fs), g)
  {
    hide At;
    if |fs| == 1 {
      HaloedOwns(p, fs, g, p.ng);
      ExchangeHalos(p, fs, g, p.ng);
    } else {
      hide Received;
      hide BlockSize;
      hide BlockStart;
      forall r | 0 <= r < |fs| ensures HaloedBlock(p, |fs|, r, Exchange(p, fs)[r], g, p.ng) {
        BlockFits(p, |fs|, r);
        forall i, j | Near(p, Rows(p, |fs|, r), p.ng, i, j)
          ensures ExtendsCell(p, Rows(p, |fs|, r), Offset(p, |fs|, r), Received(p, fs, r), g, i, j)
        {
          HaloedReceived(p, fs, g, r, i, j);
        }
      }
    }
  }

  lemma HaloedReceived(p: Params, fs: seq<Field>, g: Grid, r: int, i: int, j: int)
    requires Haloed(p, fs, g) && 1 < |fs| && 0 <= r < |fs| && InField(p, Rows(p, |fs|, r), i, j)
    ensures 1 <= Rows(p, |fs|, r) && 0 <= Offset(p, |fs|, r) && Offset(p, |fs|, r) + Rows(p, |fs|, r) <= p.ny
    ensures ExtendsCell(p, Rows(p, |fs|, r), Offset(p, |fs|, r), Received(p, fs, r), g, i, j)
  {
    hide BlockSize;
    hide BlockStart;
    hide Filled;
    hide At;
    hide Received;
    var n := |fs|;
    var a, b := Prev(r, n), Next(r, n);
    RingNeighbours(p, n, r);
    hide Prev;
    hide Next;
    BlockFits(p, n, r);
    BlockFits(p, n, a);
    BlockFits(p, n, b);
    ReceivedRow(p, fs, r, j);
    var rows, start := Rows(p, n, r), Offset(p, n, r);
    if j < p.ng {
      HaloedFilled(p, fs, g, a, i, Rows(p, n, a) + j);
      if r == 0 { SameRow(p, g, i - p.ng, start + j - p.ng, p.ny + j - p.ng); }
    } else if j >= p.ng + rows {
      HaloedFilled(p, fs, g, b, i, j - rows);
      if r == n - 1 { SameRow(p, g, i - p.ng, start + j - p.ng, j - rows - p.ng); }
    } else {
      HaloedFilled(p, fs, g, r, i, j);
    }
  }

  lemma HaloedFilled(p: Params, fs: seq<Field>, g: Grid, r: int, i: int, j: int)
    requires Haloed(p, fs, g) && 0 <= r < |fs| && InField(p, Rows(p, |fs|, r), i, j)
    ensures 0 <= Offset(p, |fs|, r) && Offset(p, |fs|, r) + Rows(p, |fs|, r) <= p.ny
    ensures Filled(p, fs, r)[j][i] == At(p, g, i - p.ng, Offset(p, |fs|, r) + j - p.ng)
  {
    hide BlockSize;
    hide BlockStart;
    BlockFits(p, |fs|, r);
    assert HaloedBlock(p, |fs|, r, fs[r], g, p.ng);
    var k := HaloSource(i, p.nx, p.ng);
    assert Near(p, Rows(p, |fs|, r), p.ng, k, j);
    assert ExtendsCell(p, Rows(p, |fs|, r), Offset(p, |fs|, r), fs[r], g, k, j);
  }

  /** A rank's field with every halo right. */
  function HaloedField(p: Params, rows: int, start: int, g: Grid): (f: Field)
    requires Shape(g, p.nx, p.ny) && 1 <= rows && 0 <= start && start + rows <= p.ny
    ensures Extends(p, rows, start, f, g)
  {
    hide At;
    seq(Height(p, rows), j requires 0 <= j < Height(p, rows) =>
      seq(Width(p), i requires 0 <= i < Width(p) => At(p, g, i - p.ng, start + j - p.ng)))
  }

  predicate Fits(p: Params, size: int, r: int)
    requires 0 < size
  {
    1 <= Rows(p, size, r) && 0 <= Offset(p, size, r) && Offset(p, size, r) + Rows(p, size, r) <= p.ny
  }

  lemma AllFit(p: Params, size: int)
    requires 1 <= size <= p.ny
    ensures forall r :: 0 <= r < size ==> Fits(p, size, r)
  {
    forall r | 0 <= r < size ensures Fits(p, size, r) { BlockFits(p, size, r); }
  }

  function HaloedCluster(p: Params, size: int, g: Grid): (fs: seq<Field>)
    requires 1 <= size <= p.ny && Shape(g, p.nx, p.ny)
    ensures |fs| == size && Haloed(p, fs, g)
  {
    hide BlockSize;
    hide BlockStart;
    hide Extends;
    hide HaloedField;
    AllFit(p, size);
    var fs := seq(size, r requires 0 <= r < size && Fits(p, size, r) =>
      HaloedField(p, Rows(p, size, r), Offset(p, size, r), g));
    AllExtend(p, fs, g);
    fs
  }

  lemma AllExtend(p: Params, fs: seq<Field>, g: Grid)
    requires 1 <= |fs| <= p.ny && Shape(g, p.nx, p.ny)
    requires forall r :: 0 <= r < |fs| ==>
               Fits(p, |fs|, r) && Extends(p, Rows(p, |fs|, r), Offset(p, |fs|, r), fs[r], g)
    ensures Haloed(p, fs, g)
  {
    hide BlockSize;
    hide BlockStart;
    hide ExtendsCell;
    forall r | 0 <= r < |fs| ensures HaloedBlock(p, |fs|, r, fs[r], g, p.ng) {
      BlockFits(p, |fs|, r);
    }
  }

  // ----- The narrow run -----

  /** Every cell is at rest. */
  ghost predicate AllRest(p: Params, fs: seq<Field>) {
    IsCluster(p, fs) && forall r, i, j :: 0 <= r < |fs| && InField(p, Rows(p, |fs|, r), i, j) ==> RestAt(p, fs, r, i, j)
  }

  predicate RestAt(p: Params, fs: seq<Field>, r: int, i: int, j: int)
    requires IsCluster(p, fs) && 0 <= r < |fs| && InField(p, Rows(p, |fs|, r), i, j)
  {
    fs[r][j][i] == Rest(p, fs[r][j][i].rho)
  }

  lemma FilledRest(p: Params, fs: seq<Field>, r: int, i: int, j: int)
    requires AllRest(p, fs) && 0 <= r < |fs| && InField(p, Rows(p, |fs|, r), i, j)
    ensures Filled(p, fs, r)[j][i] == Rest(p, Filled(p, fs, r)[j][i].rho)
  {
    hide BlockSize;
    hide Rest;
    assert RestAt(p, fs, r, HaloSource(i, p.nx, p.ng), j);
  }

  /** The exchange only copies cells. */
  lemma ExchangeKeepsRest(p: Params, fs: seq<Field>, r: int, i: int, j: int)
    requires AllRest(p, fs) && 1 < |fs| && 0 <= r < |fs| && InField(p, Rows(p, |fs|, r), i, j)
    ensures RestAt(p, Exchange(p, fs), r, i, j)
  {
    hide BlockSize;
    hide Rest;
    hide Received;
    hide Filled;
    var n := |fs|;
    Ring(r, n);
    hide Prev;
    hide Next;
    var a, b := Prev(r, n), Next(r, n);
    ReceivedRow(p, fs, r, j);
    BlockRows(p, n, a);
    BlockRows(p, n, b);
    var rows := Rows(p, n, r);
    if j < p.ng {
      FilledRest(p, fs, a, i, Rows(p, n, a) + j);
    } else if j >= p.ng + rows {
      FilledRest(p, fs, b, i, j - rows);
    } else {
      FilledRest(p, fs, r, i, j);
    }
  }

  lemma BlockRows(p: Params, size: int, r: int)
    requires 0 < size <= p.ny
    ensures 1 <= Rows(p, size, r)
  {
    AtLeastOne(p.ny, size);
  }

  lemma GhostsKept(p: Params, rows: int, dt: real, f: Field, i: int, j: int)
    requires IsField(p, rows, f) && InField(p, rows, i, j) && !InCells(p, rows, i, j)
    ensures PhaseOne(p, rows, true, dt, f)[j][i] == f[j][i]
  {
    hide FieldRhs;
  }

  /** The fields at the start of the narrow run, before and after the first exchange. */
  function Initial(p: Params, size: int): (fs: seq<Field>)
    requires 1 <= size <= p.ny
    ensures |fs| == size && Haloed(p, fs, Layers(p, Pattern(p)))
  {
    HaloedCluster(p, size, Layers(p, Pattern(p)))
  }

  lemma LayersRest(p: Params, fs: seq<Field>, f: int -> real, r: int, i: int, j: int)
    requires Haloed(p, fs, Layers(p, f)) && 0 <= r < |fs| && InField(p, Rows(p, |fs|, r), i, j)
    ensures 0 <= Offset(p, |fs|, r) && Offset(p, |fs|, r) + Rows(p, |fs|, r) <= p.ny
    ensures fs[r][j][i] == Rest(p, Around(p, f, Offset(p, |fs|, r) + j - p.ng))
  {
    hide BlockSize;
    hide BlockStart;
    hide Rest;
    hide At;
    hide Around;
    hide Layers;
    BlockFits(p, |fs|, r);
    assert HaloedBlock(p, |fs|, r, fs[r], Layers(p, f), p.ng);
    assert Near(p, Rows(p, |fs|, r), p.ng, i, j);
    assert ExtendsCell(p, Rows(p, |fs|, r), Offset(p, |fs|, r), fs[r], Layers(p, f), i, j);
    LayersAt(p, f, i - p.ng, Offset(p, |fs|, r) + j - p.ng);
  }

  /** After the first stage every rank's own cells are the staged layers, its ghosts still the
      initial ones, and everything is at rest. */
  lemma AfterStage(p: Params, us: seq<Field>, r: int, i: int, j: int)
    requires SquareRoot(p) && 0.0 < Sound(p, Base(p)) && Haloed(p, us, Layers(p, Pattern(p)))
    requires 0 <= r < |us| && InField(p, Rows(p, |us|, r), i, j)
    ensures var ss := AllPhaseOne(p, true, Tick(p), us);
            && Owns(p, ss, Layers(p, Staged(p))) && RestAt(p, ss, r, i, j)
            && (!InCells(p, Rows(p, |us|, r), i, j) ==> ss[r][j][i] == us[r][j][i])
  {
    hide BlockSize;
    hide BlockStart;
    hide PhaseOne;
    hide Layers;
    hide Pattern;
    hide Staged;
    hide Tick;
    hide Sound;
    hide Base;
    hide Rest;
    hide Around;
    hide Floors;
    hide Euler;
    hide Rhs;
    hide HoldsCell;
    hide ExtendsWithin;
    var g, h, rows := Layers(p, Pattern(p)), Layers(p, Staged(p)), Rows(p, |us|, r);
    var ss := AllPhaseOne(p, true, Tick(p), us);
    StageIsLayers(p);
    Nearer(p, us, g, Reach(true));
    AllPhaseOneOwns(p, true, Tick(p), us, g);
    assert Owns(p, ss, h);
    BlockFits(p, |us|, r);
    if InCells(p, rows, i, j) {
      assert OwnsBlock(p, |us|, r, ss[r], h);
      OwnsRest(p, ss, Staged(p), r, i, j);
    } else {
      GhostsKept(p, rows, Tick(p), us[r], i, j);
      LayersRest(p, us, Pattern(p), r, i, j);
      RestIsRest(p, Around(p, Pattern(p), Offset(p, |us|, r) + j - p.ng));
    }
  }

  lemma RestIsRest(p: Params, rho: real)
    ensures Rest(p, Rest(p, rho).rho) == Rest(p, rho)
  {
  }

  lemma OwnsRest(p: Params, fs: seq<Field>, f: int -> real, r: int, i: int, j: int)
    requires Owns(p, fs, Layers(p, f)) && 0 <= r < |fs| && InCells(p, Rows(p, |fs|, r), i, j)
    ensures RestAt(p, fs, r, i, j)
  {
    hide BlockSize;
    hide BlockStart;
    hide Rest;
    BlockFits(p, |fs|, r);
    assert OwnsBlock(p, |fs|, r, fs[r], Layers(p, f));
    assert HoldsCell(p, Rows(p, |fs|, r), Offset(p, |fs|, r), fs[r], Layers(p, f), i, j);
    RestIsRest(p, f(Offset(p, |fs|, r) + j - p.ng));
  }

  lemma Nearer(p: Params, fs: seq<Field>, g: Grid, depth: int)
    requires Haloed(p, fs, g) && 0 <= depth <= p.ng
    ensures HaloedWithin(p, fs, g, depth)
  {
    hide BlockSize;
    hide BlockStart;
    hide ExtendsCell;
    forall r | 0 <= r < |fs| ensures HaloedBlock(p, |fs|, r, fs[r], g, depth) {
      assert HaloedBlock(p, |fs|, r, fs[r], g, p.ng);
      BlockFits(p, |fs|, r);
      forall i, j | Near(p, Rows(p, |fs|, r), depth, i, j)
        ensures ExtendsCell(p, Rows(p, |fs|, r), Offset(p, |fs|, r), fs[r], g, i, j)
      {
        assert Near(p, Rows(p, |fs|, r), p.ng, i, j);
      }
    }
  }

  /** When ranks may own a single row, the last rank does. */
  lemma LastOwnsOne(p: Params, size: int)
    requires 1 < size <= p.ny && p.ny / size == 1
    ensures Rows(p, size, size - 1) == 1 && Offset(p, size, size - 1) == p.ny - 1
  {
    BlocksAbut(p.ny, size, size - 1);
  }

  /** The last rank, owning one row, sends rank 0 its own first ghost row with it. */
  lemma GhostRowSent(p: Params, fs: seq<Field>)
    requires IsCluster(p, fs) && 1 < |fs| && p.ny / |fs| == 1
    ensures 1 <= Rows(p, |fs|, 0) && Rows(p, |fs|, |fs| - 1) == 1
    ensures Exchange(p, fs)[0][p.ng - 2][p.ng] == fs[|fs| - 1][p.ng - 1][p.ng]
  {
    hide Received;
    hide FillX;
    var n := |fs|;
    BlockRows(p, n, 0);
    LastOwnsOne(p, n);
    hide BlockSize;
    hide BlockStart;
    Ring(0, n);
    hide Prev;
    hide Next;
    ReceivedRow(p, fs, 0, p.ng - 2);
    assert InField(p, 1, p.ng, p.ng - 1);
  }

  /** What rank 0 then sees two rows below its own: not the staged row but the initial one. */
  lemma StaleBelow(p: Params, us: seq<Field>)
    requires SquareRoot(p) && 0.0 < Sound(p, Base(p)) && Haloed(p, us, Layers(p, Pattern(p)))
    requires 1 < |us| && p.ny / |us| == 1
    ensures 1 <= Rows(p, |us|, 0)
    ensures Exchange(p, AllPhaseOne(p, true, Tick(p), us))[0][p.ng - 2][p.ng] == Rest(p, Pattern(p)(p.ny - 2))
  {
    hide AllPhaseOne;
    hide Exchange;
    hide Rest;
    hide Layers;
    hide Pattern;
    hide Sound;
    hide Tick;
    hide Base;
    hide Around;
    hide HaloedBlock;
    var n := |us|;
    LastOwnsOne(p, n);
    hide BlockSize;
    hide BlockStart;
    GhostRowSent(p, AllPhaseOne(p, true, Tick(p), us));
    AfterStage(p, us, n - 1, p.ng, p.ng - 1);
    LayersRest(p, us, Pattern(p), n - 1, p.ng, p.ng - 1);
    AroundHere(p, Pattern(p), p.ny - 2);
  }

  /** The fields the second stage works on. */
  function SecondInput(p: Params, us: seq<Field>): (ss: seq<Field>)
    requires IsCluster(p, us) && Sound(p, Base(p)) != 0.0
    ensures IsCluster(p, ss) && |ss| == |us|
  {
    Exchange(p, AllPhaseOne(p, true, Tick(p), us))
  }

  lemma OwnedNear(p: Params, fs: seq<Field>, f: int -> real, i: int, k: int)
    requires Owns(p, fs, Layers(p, f)) && 0 <= i < Width(p) && -1 <= k <= 1
    ensures 1 <= Rows(p, |fs|, 0)
    ensures Exchange(p, fs)[0][p.ng + k][i] == Rest(p, Around(p, f, k))
  {
    hide Layers;
    hide Rest;
    hide At;
    hide Around;
    hide Exchange;
    hide OwnsBlock;
    hide HaloedWithin;
    var n := |fs|;
    AtLeastOne(p.ny, n);
    BlockRows(p, n, 0);
    BlocksAbut(p.ny, n, 0);
    hide BlockSize;
    hide BlockStart;
    ExchangeHalos(p, fs, Layers(p, f), 1);
    NearCell(p, Exchange(p, fs), Layers(p, f), 1, 0, i, p.ng + k);
    LayersAt(p, f, i - p.ng, k);
  }

  /** Close to rank 0's first row they are the staged layers. */
  lemma SecondInputNear(p: Params, us: seq<Field>, i: int, k: int)
    requires SquareRoot(p) && 0.0 < Sound(p, Base(p)) && Haloed(p, us, Layers(p, Pattern(p)))
    requires 0 <= i < Width(p) && -1 <= k <= 1
    ensures 1 <= Rows(p, |us|, 0)
    ensures SecondInput(p, us)[0][p.ng + k][i] == Rest(p, Around(p, Staged(p), k))
  {
    hide Layers;
    hide Pattern;
    hide Staged;
    hide Tick;
    hide Sound;
    hide Base;
    hide Rest;
    hide Around;
    hide Exchange;
    hide AllPhaseOne;
    hide Owns;
    BlockRows(p, |us|, 0);
    assert InField(p, Rows(p, |us|, 0), i, p.ng + k);
    AfterStage(p, us, 0, i, p.ng + k);
    OwnedNear(p, AllPhaseOne(p, true, Tick(p), us), Staged(p), i, k);
  }

  /** Two rows above it there is some layer at rest. */
  lemma SecondInputAbove(p: Params, us: seq<Field>) returns (e: real)
    requires SquareRoot(p) && 0.0 < Sound(p, Base(p)) && Haloed(p, us, Layers(p, Pattern(p))) && 1 < |us|
    ensures 1 <= Rows(p, |us|, 0)
    ensures SecondInput(p, us)[0][p.ng + 2][p.ng] == Rest(p, e)
  {
    hide PhaseOne;
    hide Layers;
    hide Pattern;
    hide Staged;
    hide Tick;
    hide Sound;
    hide Base;
    hide Rest;
    hide Around;
    hide Exchange;
    var n, ss := |us|, AllPhaseOne(p, true, Tick(p), us);
    BlockRows(p, n, 0);
    forall r, i, j | 0 <= r < n && InField(p, Rows(p, n, r), i, j) ensures RestAt(p, ss, r, i, j) {
      AfterStage(p, us, r, i, j);
    }
    hide AllPhaseOne;
    ExchangeKeepsRest(p, ss, 0, p.ng, p.ng + 2);
    e := SecondInput(p, us)[0][p.ng + 2][p.ng].rho;
  }

  /** The stencil of a field's first cell lies in layers of these densities. */
  predicate FirstStencil(p: Params, rows: int, s: Field, a: real, b: real, c: real, d: real, e: real)
    requires IsField(p, rows, s)
  {
    && s[p.ng][p.ng - 2] == s[p.ng][p.ng - 1] == s[p.ng][p.ng] == s[p.ng][p.ng + 1] == s[p.ng][p.ng + 2] == Rest(p, c)
    && s[p.ng - 1][p.ng] == Rest(p, b) && s[p.ng + 1][p.ng] == Rest(p, d)
    && s[p.ng - 2][p.ng] == Rest(p, a) && s[p.ng + 2][p.ng] == Rest(p, e)
  }

  lemma FieldStencil(p: Params, rows: int, s: Field, a: real, b: real, c: real, d: real, e: real)
    requires SquareRoot(p) && Base(p) <= b && Base(p) <= c && Base(p) <= d
    requires IsField(p, rows, s) && FirstStencil(p, rows, s, a, b, c, d, e)
    ensures FieldRhsCell(p, rows, true, s, p.ng, p.ng) == ZERO.(rho := Rate(p, a, b, c, d, e))
  {
    hide FaceFlux;
    hide Divergence;
    hide Rate;
    hide Rest;
    hide Base;
    var w := FaceFlux(p, true, X, s[p.ng][p.ng], s[p.ng][p.ng], s[p.ng][p.ng], s[p.ng][p.ng]);
    RestStencil(p, w, a, b, c, d, e);
  }

  lemma StaleStencil(p: Params, us: seq<Field>) returns (e: real)
    requires SquareRoot(p) && 0.0 < Sound(p, Base(p)) && Haloed(p, us, Layers(p, Pattern(p)))
    requires 1 < |us| && p.ny / |us| == 1
    ensures 1 <= Rows(p, |us|, 0)
    ensures var f := Staged(p);
            FirstStencil(p, Rows(p, |us|, 0), SecondInput(p, us)[0],
                         Pattern(p)(p.ny - 2), Around(p, f, -1), Around(p, f, 0), Around(p, f, 1), e)
  {
    hide Layers;
    hide Pattern;
    hide Tick;
    hide Sound;
    hide Rest;
    hide Staged;
    hide Around;
    hide Base;
    hide BlockSize;
    hide HaloedBlock;
    hide Exchange;
    hide AllPhaseOne;
    StaleBelow(p, us);
    e := SecondInputAbove(p, us);
    forall i | 0 <= i < Width(p) ensures SecondInput(p, us)[0][p.ng][i] == Rest(p, Around(p, Staged(p), 0)) {
      SecondInputNear(p, us, i, 0);
    }
    SecondInputNear(p, us, p.ng, -1);
    SecondInputNear(p, us, p.ng, 1);
  }

  /** The right-hand side of rank 0's first cell. */
  lemma StaleRhs(p: Params, us: seq<Field>) returns (e: real)
    requires SquareRoot(p) && 0.0 < Sound(p, Base(p)) && Haloed(p, us, Layers(p, Pattern(p)))
    requires 1 < |us| && p.ny / |us| == 1
    ensures 1 <= Rows(p, |us|, 0)
    ensures var f := Staged(p);
            FieldRhsCell(p, Rows(p, |us|, 0), true, SecondInput(p, us)[0], p.ng, p.ng)
            == ZERO.(rho := Rate(p, Pattern(p)(p.ny - 2), Around(p, f, -1), Around(p, f, 0), Around(p, f, 1), e))
  {
    hide Layers;
    hide Pattern;
    hide Sound;
    hide Rate;
    hide FieldRhsCell;
    hide Staged;
    hide Around;
    hide Base;
    hide BlockSize;
    hide SecondInput;
    hide HaloedBlock;
    hide FirstStencil;
    StagedShape(p);
    e := StaleStencil(p, us);
    var f := Staged(p);
    FieldStencil(p, Rows(p, |us|, 0), SecondInput(p, us)[0], Pattern(p)(p.ny - 2), Around(p, f, -1), Around(p, f, 0),
                 Around(p, f, 1), e);
  }

  /** The density both stages end with, for a given rate. */
  function Final(p: Params, rate: real): real
    requires Sound(p, Base(p)) != 0.0
  {
    Times(0.5, 2.0 * Base(p) + Around(p, Staged(p), 0) + Times(Tick(p), rate))
  }

  lemma FinalGrows(p: Params, x: real, y: real)
    requires SquareRoot(p) && 0.0 < Sound(p, Base(p)) && 0.0 <= x < y
    ensures Base(p) <= Final(p, x) < Final(p, y)
  {
    StagedShape(p);
    hide Staged;
    hide Around;
    TickTimes(Sound(p, Base(p)), Dy(p), 0.0, 0.0);
    hide Sound;
    var t := Tick(p);
    assert 0.0 < t;
    hide Tick;
    Increasing(t, x, y);
    Halves(2.0 * Base(p) + Around(p, Staged(p), 0) + Times(t, x));
    Halves(2.0 * Base(p) + Around(p, Staged(p), 0) + Times(t, y));
    hide Times;
  }

  lemma Halves(x: real)
    ensures Times(0.5, x) == 0.5 * x
  {
  }

  lemma AdvanceAt(p: Params, dt: real, g: Grid, i: int, j: int)
    requires Shape(g, p.nx, p.ny) && 0 <= i < p.nx && 0 <= j < p.ny && p.reconstruction == MUSCL
    ensures var h := Stage(p, dt, g);
            Advance(p, dt, g)[j][i] == Regularize(p, Average(dt, g[j][i], h[j][i], RhsCell(p, true, h, i, j)))
  {
    hide Stage;
    hide RhsCell;
    hide Regularize;
    hide Average;
  }

  /** The reference's first cell after the step. */
  lemma ReferenceCell(p: Params)
    requires SquareRoot(p) && 0.0 < Sound(p, Base(p)) && p.reconstruction == MUSCL
    requires Base(p) <= Final(p, RateAround(p, Staged(p), 0))
    ensures Advance(p, Tick(p), Layers(p, Pattern(p)))[0][0] == Rest(p, Final(p, RateAround(p, Staged(p), 0)))
  {
    hide Advance;
    hide Stage;
    hide RhsCell;
    hide Rest;
    hide Regularize;
    hide Average;
    hide Rate;
    hide Sound;
    hide Times;
    hide Tick;
    hide Staged;
    hide Around;
    hide Base;
    AdvanceAt(p, Tick(p), Layers(p, Pattern(p)), 0, 0);
    StageIsLayers(p);
    LayersRhs(p, Staged(p), 0, 0);
    AroundHere(p, Staged(p), 0);
    RestAverage(p, Tick(p), Pattern(p)(0), Staged(p)(0), RateAround(p, Staged(p), 0));
    RestCell(p, Final(p, RateAround(p, Staged(p), 0)));
  }

  lemma PhaseTwoAt(p: Params, rows: int, dt: real, f: Field, s: Field, i: int, j: int)
    requires IsField(p, rows, f) && IsField(p, rows, s) && InCells(p, rows, i, j)
    ensures PhaseTwo(p, rows, dt, f, s)[j][i]
         == Regularize(p, Average(dt, f[j][i], s[j][i], FieldRhsCell(p, rows, true, s, i, j)))
  {
    hide FieldRhsCell;
    hide Average;
    hide Regularize;
    assert InField(p, rows, i, j);
  }

  /** Rank 0's first cell after the second stage. */
  lemma NarrowStage(p: Params, rows: int, f: Field, s: Field, rate: real)
    requires SquareRoot(p) && 0.0 < Sound(p, Base(p)) && IsField(p, rows, f) && IsField(p, rows, s)
    requires f[p.ng][p.ng] == Rest(p, 2.0 * Base(p)) && s[p.ng][p.ng] == Rest(p, Around(p, Staged(p), 0))
    requires FieldRhsCell(p, rows, true, s, p.ng, p.ng) == ZERO.(rho := rate) && Base(p) <= Final(p, rate)
    ensures PhaseTwo(p, rows, Tick(p), f, s)[p.ng][p.ng] == Rest(p, Final(p, rate))
  {
    hide FieldRhsCell;
    hide Rest;
    hide Average;
    hide Regularize;
    hide Around;
    hide Staged;
    hide Sound;
    hide Times;
    hide Tick;
    hide Base;
    hide PhaseTwo;
    PhaseTwoAt(p, rows, Tick(p), f, s, p.ng, p.ng);
    RestAverage(p, Tick(p), 2.0 * Base(p), Around(p, Staged(p), 0), rate);
    RestCell(p, Final(p, rate));
  }

  /** Rank 0's first cell after the step. */
  lemma NarrowCell(p: Params, fs: seq<Field>, rate: real)
    requires SquareRoot(p) && 0.0 < Sound(p, Base(p)) && p.reconstruction == MUSCL && 1 < |fs|
    requires Haloed(p, fs, Layers(p, Pattern(p))) && Base(p) <= Final(p, rate)
    requires IsCluster(p, Exchange(p, fs)) && 1 <= Rows(p, |fs|, 0)
    requires FieldRhsCell(p, Rows(p, |fs|, 0), true, SecondInput(p, Exchange(p, fs))[0], p.ng, p.ng)
        == ZERO.(rho := rate)
    ensures ClusterAdvance(p, Tick(p), fs)[0][p.ng][p.ng] == Rest(p, Final(p, rate))
  {
    hide Layers;
    hide FieldRhsCell;
    hide Rest;
    hide Around;
    hide Sound;
    hide Tick;
    hide Staged;
    hide PhaseTwo;
    hide Exchange;
    hide AllPhaseOne;
    hide Final;
    var n, us := |fs|, Exchange(p, fs);
    ExchangeKeepsHalos(p, fs, Layers(p, Pattern(p)));
    BlocksAbut(p.ny, n, 0);
    LayersRest(p, us, Pattern(p), 0, p.ng, p.ng);
    AroundHere(p, Pattern(p), 0);
    SecondInputNear(p, us, p.ng, 0);
    hide BlockSize;
    hide BlockStart;
    hide Haloed;
    var ss := SecondInput(p, us);
    NarrowStage(p, Rows(p, n, 0), us[0], ss[0], rate);
    OwnCellKept(p, AllPhaseTwo(p, Tick(p), us, ss), p.ng, p.ng);
    hide Base;
  }

  lemma OwnCellKept(p: Params, fs: seq<Field>, i: int, j: int)
    requires IsCluster(p, fs) && InCells(p, Rows(p, |fs|, 0), i, j)
    ensures 1 <= Rows(p, |fs|, 0) && Exchange(p, fs)[0][j][i] == fs[0][j][i]
  {
    BlockRows(p, |fs|, 0);
    hide BlockSize;
    assert InField(p, Rows(p, |fs|, 0), i, j);
  }

  /** With the second-order scheme and ranks of a single row, a run from correct halos leaves the
      reference in its first step. */
  lemma NarrowRunDiffers(p: Params, size: int) returns (dt: real, fs: seq<Field>, g: Grid)
    requires SquareRoot(p) && p.reconstruction == MUSCL && 1 < size <= p.ny && p.ny / size == 1
    ensures |fs| == size && Haloed(p, fs, g)
    ensures !Owns(p, ClusterAdvance(p, dt, fs), Advance(p, dt, g))
  {
    SoundFalls(p, Base(p), Base(p));
    hide Sound;
    hide Tick;
    hide Layers;
    hide Rate;
    hide Final;
    g, fs, dt := Layers(p, Pattern(p)), Initial(p, size), Tick(p);
    ExchangeKeepsHalos(p, fs, g);
    var us, f := Exchange(p, fs), Staged(p);
    var e := StaleRhs(p, us);
    StagedShape(p);
    hide Staged;
    hide Around;
    hide Base;
    hide Pattern;
    var stale := Rate(p, Pattern(p)(p.ny - 2), Around(p, f, -1), Around(p, f, 0), Around(p, f, 1), e);
    RatesDiffer(p, Around(p, f, -2), Pattern(p)(p.ny - 2), Around(p, f, -1), Around(p, f, 0), Around(p, f, 1),
                Around(p, f, 2), e);
    FinalGrows(p, stale, RateAround(p, f, 0));
    ReferenceCell(p);
    NarrowCell(p, fs, stale);
    hide ClusterAdvance;
    hide Advance;
    hide Exchange;
    WrongFirstCell(p, ClusterAdvance(p, dt, fs), Advance(p, dt, g));
  }

  lemma WrongFirstCell(p: Params, fs: seq<Field>, g: Grid)
    requires IsCluster(p, fs) && Shape(g, p.nx, p.ny) && 1 <= Rows(p, |fs|, 0)
    requires fs[0][p.ng][p.ng] != g[0][0]
    ensures !Owns(p, fs, g)
  {
    BlocksAbut(p.ny, |fs|, 0);
    hide BlockSize;
    hide BlockStart;
    BlockFits(p, |fs|, 0);
    assert InCells(p, Rows(p, |fs|, 0), p.ng, p.ng);
    assert !HoldsCell(p, Rows(p, |fs|, 0), 0, fs[0], g, p.ng, p.ng);
    assert !OwnsBlock(p, |fs|, 0, fs[0], g);
  }

  /** A distributed run holds the reference grid, whatever the fields and the steps, exactly when
      every rank has as many rows as the scheme reaches: always with the first-order scheme, from
      two rows on with the second-order one. */
  lemma RunRightIffWide(p: Params, size: int)
    requires SquareRoot(p) && 1 <= size <= p.ny
    ensures (forall dts, fs, g :: Owns(p, fs, g) && |fs| == size ==> Owns(p, ClusterRun(p, dts, fs), Run(p, dts, g)))
       <==> WideForRun(p, size)
  {
    AtLeastOne(p.ny, size);
    if WideForRun(p, size) {
      forall dts, fs, g | Owns(p, fs, g) && |fs| == size ensures Owns(p, ClusterRun(p, dts, fs), Run(p, dts, g)) {
        RunRefines(p, dts, fs, g, 0);
      }
    } else {
      var dt, fs, g := NarrowRunDiffers(p, size);
      HaloedOwns(p, fs, g, p.ng);
      OneStepRun(p, dt, fs, g);
      assert !Owns(p, ClusterRun(p, [dt], fs), Run(p, [dt], g));
    }
  }

  lemma OneStepRun(p: Params, dt: real, fs: seq<Field>, g: Grid)
    requires IsCluster(p, fs) && Shape(g, p.nx, p.ny)
    ensures ClusterRun(p, [dt], fs) == ClusterAdvance(p, dt, fs) && Run(p, [dt], g) == Advance(p, dt, g)
  {
    hide ClusterAdvance;
    hide Advance;
    assert [dt][1..] == [];
    assert ClusterRun(p, [], ClusterAdvance(p, dt, fs)) == ClusterAdvance(p, dt, fs);
    assert Run(p, [], Advance(p, dt, g)) == Advance(p, dt, g);
  }
}
