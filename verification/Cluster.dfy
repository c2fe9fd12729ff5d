/** All ranks of a distributed run in lockstep: the message exchange as a step on the sequence of
    rank fields, and the proof that any number of ranks computes the reference scheme. */
module Cluster {
  import opened States
  import opened PeriodicGrid
  import opened RankField
  import opened RowSplit

  function Rows(p: Params, size: int, rank: int): int
    requires 0 < size
  {
    BlockSize(p.ny, size, rank)
  }

  function Offset(p: Params, size: int, rank: int): int
    requires 0 < size
  {
    BlockStart(p.ny, size, rank)
  }

  function Prev(rank: int, size: int): int
    requires 0 < size
  {
    (rank - 1 + size) % size
  }

  function Next(rank: int, size: int): int
    requires 0 < size
  {
    (rank + 1) % size
  }

  /** One field per rank, and no more ranks than rows: what the constructor insists on. */
  ghost predicate IsCluster(p: Params, fs: seq<Field>) {
    1 <= |fs| <= p.ny && forall r :: 0 <= r < |fs| ==> IsField(p, Rows(p, |fs|, r), fs[r])
  }

  /** Every rank owns at least `depth` rows. */
  predicate Wide(p: Params, size: int, depth: int)
    requires 0 < size
  {
    depth <= p.ny / size
  }

  /** Every rank owns at least as many rows as a halo is deep. */
  predicate WideEnough(p: Params, size: int)
    requires 0 < size
  {
    Wide(p, size, p.ng)
  }

  /** Every rank owns as many rows as the right-hand side reaches: one or two. */
  predicate WideForRun(p: Params, size: int)
    requires 0 < size
  {
    Wide(p, size, Reach(p.reconstruction == MUSCL))
  }

  /** What rank r's field is after its neighbours' rows have arrived: its first ghost rows hold the
      previous rank's top rows, its last ones the next rank's bottom rows. */
  function Received(p: Params, fs: seq<Field>, r: int): (f: Field)
    requires IsCluster(p, fs) && 0 <= r < |fs|
    ensures IsField(p, Rows(p, |fs|, r), f)
  {
    var n := |fs|;
    var own := FillX(p, Rows(p, n, r), fs[r]);
    var a, b := Prev(r, n), Next(r, n);
    PutHalos(p, Rows(p, n, r), own,
             TopRows(p, Rows(p, n, a), FillX(p, Rows(p, n, a), fs[a])),
             BottomRows(p, Rows(p, n, b), FillX(p, Rows(p, n, b), fs[b])))
  }

  /** The halo fill of all ranks; a lone rank wraps its own rows around. */
  function Exchange(p: Params, fs: seq<Field>): (r: seq<Field>)
    requires IsCluster(p, fs)
    ensures IsCluster(p, r) && |r| == |fs|
  {
    if |fs| == 1 then
      [FillY(p, Rows(p, 1, 0), FillX(p, Rows(p, 1, 0), fs[0]))]
    else
      seq(|fs|, r requires 0 <= r < |fs| => Received(p, fs, r))
  }

  function AllPhaseOne(p: Params, second: bool, dt: real, fs: seq<Field>): (r: seq<Field>)
    requires IsCluster(p, fs)
    ensures IsCluster(p, r) && |r| == |fs|
    ensures forall k :: 0 <= k < |fs| ==> r[k] == PhaseOne(p, Rows(p, |fs|, k), second, dt, fs[k])
  {
    seq(|fs|, k requires 0 <= k < |fs| => PhaseOne(p, Rows(p, |fs|, k), second, dt, fs[k]))
  }

  function AllPhaseTwo(p: Params, dt: real, fs: seq<Field>, ss: seq<Field>): (r: seq<Field>)
    requires IsCluster(p, fs) && IsCluster(p, ss) && |ss| == |fs|
    ensures IsCluster(p, r) && |r| == |fs|
    ensures forall k :: 0 <= k < |fs| ==> r[k] == PhaseTwo(p, Rows(p, |fs|, k), dt, fs[k], ss[k])
  {
    seq(|fs|, k requires 0 <= k < |fs| => PhaseTwo(p, Rows(p, |fs|, k), dt, fs[k], ss[k]))
  }

  /** One `advance(dt)` on every rank. */
  function ClusterAdvance(p: Params, dt: real, fs: seq<Field>): (r: seq<Field>)
    requires IsCluster(p, fs)
    ensures IsCluster(p, r) && |r| == |fs|
  {
    var us := Exchange(p, fs);
    match p.reconstruction
    case FirstOrder => Exchange(p, AllPhaseOne(p, false, dt, us))
    case MUSCL =>
      var ss := Exchange(p, AllPhaseOne(p, true, dt, us));
      Exchange(p, AllPhaseTwo(p, dt, us, ss))
  }

  function ClusterRun(p: Params, dts: seq<real>, fs: seq<Field>): (r: seq<Field>)
    requires IsCluster(p, fs)
    ensures IsCluster(p, r) && |r| == |fs|
    decreases |dts|
  {
    if dts == [] then fs else ClusterRun(p, dts[1..], ClusterAdvance(p, dts[0], fs))
  }

  // ----- The ranks together hold the grid -----

  lemma BlockFits(p: Params, size: int, rank: int)
    requires 0 < size <= p.ny && 0 <= rank < size
    ensures 0 <= Offset(p, size, rank) && Offset(p, size, rank) + Rows(p, size, rank) <= p.ny
    ensures 1 <= Rows(p, size, rank)
    ensures Offset(p, size, rank + 1) == Offset(p, size, rank) + Rows(p, size, rank)
  {
    BlocksAbut(p.ny, size, rank);
    BlocksInRange(p.ny, size, rank);
    BlocksInRange(p.ny, size, rank + 1);
    AtLeastOne(p.ny, size);
  }

  lemma AtLeastOne(n: int, size: int)
    requires 0 < size <= n
    ensures 1 <= n / size
  {
  }

  /** Each rank's interior is its block of rows of `g`. */
  ghost predicate Owns(p: Params, fs: seq<Field>, g: Grid) {
    && IsCluster(p, fs) && Shape(g, p.nx, p.ny)
    && forall r :: 0 <= r < |fs| ==> OwnsBlock(p, |fs|, r, fs[r], g)
  }

  ghost predicate OwnsBlock(p: Params, size: int, r: int, f: Field, g: Grid)
    requires 0 <= r < size <= p.ny && Shape(g, p.nx, p.ny)
  {
    BlockFits(p, size, r);
    Holds(p, Rows(p, size, r), Offset(p, size, r), f, g)
  }

  /** Each rank's field is the periodic extension of its block as far as `depth` rows out. */
  ghost predicate HaloedWithin(p: Params, fs: seq<Field>, g: Grid, depth: int) {
    && IsCluster(p, fs) && Shape(g, p.nx, p.ny) && 0 <= depth <= p.ng
    && forall r :: 0 <= r < |fs| ==> HaloedBlock(p, |fs|, r, fs[r], g, depth)
  }

  ghost predicate HaloedBlock(p: Params, size: int, r: int, f: Field, g: Grid, depth: int)
    requires 0 <= r < size <= p.ny && Shape(g, p.nx, p.ny) && 0 <= depth <= p.ng
  {
    BlockFits(p, size, r);
    ExtendsWithin(p, Rows(p, size, r), Offset(p, size, r), f, g, depth)
  }

  /** Each rank's whole field is: all ghosts included. */
  ghost predicate Haloed(p: Params, fs: seq<Field>, g: Grid) {
    HaloedWithin(p, fs, g, p.ng)
  }

  lemma HaloedOwns(p: Params, fs: seq<Field>, g: Grid, depth: int)
    requires HaloedWithin(p, fs, g, depth)
    ensures Owns(p, fs, g)
  {
    forall r | 0 <= r < |fs| ensures OwnsBlock(p, |fs|, r, fs[r], g) {
      assert HaloedBlock(p, |fs|, r, fs[r], g, depth);
      BlockFits(p, |fs|, r);
      ExtendsHolds(p, Rows(p, |fs|, r), Offset(p, |fs|, r), fs[r], g, depth);
    }
  }

  /** A cell of a haloed field is the grid's cell it stands for. */
  lemma NearCell(p: Params, fs: seq<Field>, g: Grid, depth: int, r: int, i: int, j: int)
    requires HaloedWithin(p, fs, g, depth) && 0 <= r < |fs| && Near(p, Rows(p, |fs|, r), depth, i, j)
    ensures 1 <= Rows(p, |fs|, r) && 0 <= Offset(p, |fs|, r) && Offset(p, |fs|, r) + Rows(p, |fs|, r) <= p.ny
    ensures fs[r][j][i] == At(p, g, i - p.ng, Offset(p, |fs|, r) + j - p.ng)
  {
    hide BlockSize;
    hide BlockStart;
    hide At;
    BlockFits(p, |fs|, r);
    assert HaloedBlock(p, |fs|, r, fs[r], g, depth);
    assert ExtendsCell(p, Rows(p, |fs|, r), Offset(p, |fs|, r), fs[r], g, i, j);
  }

  // ----- The exchange -----

  /** After the x fill a rank's interior rows are right in every column. */
  lemma FillXRows(p: Params, rows: int, start: int, f: Field, g: Grid, i: int, j: int)
    requires Shape(g, p.nx, p.ny) && 0 <= start && start + rows <= p.ny && Holds(p, rows, start, f, g)
    requires 0 <= i < Width(p) && p.ng <= j < p.ng + rows
    ensures FillX(p, rows, f)[j][i] == At(p, g, i - p.ng, start + j - p.ng)
  {
    assert InField(p, rows, i, j);
    var k := HaloSource(i, p.nx, p.ng);
    assert HoldsCell(p, rows, start, f, g, k, j);
  }

  lemma Ring(r: int, size: int)
    requires 1 < size && 0 <= r < size
    ensures Next(r, size) == (if r == size - 1 then 0 else r + 1)
    ensures Prev(r, size) == (if r == 0 then size - 1 else r - 1)
  {
    if r != 0 { ModShift(r - 1, size); }
  }

  lemma ModShift(a: int, n: int)
    requires 0 <= a < n
    ensures (a + n) % n == a
  {
  }

  /** The previous rank's rows end where rank r's start, and the next rank's start where r's end,
      around the ring. */
  lemma RingNeighbours(p: Params, size: int, r: int)
    requires 1 < size <= p.ny && 0 <= r < size
    ensures 0 <= Prev(r, size) < size && 0 <= Next(r, size) < size
    ensures Offset(p, size, Prev(r, size)) + Rows(p, size, Prev(r, size))
         == (if r == 0 then p.ny else Offset(p, size, r))
    ensures Offset(p, size, Next(r, size))
         == (if r == size - 1 then 0 else Offset(p, size, r) + Rows(p, size, r))
    ensures r == 0 ==> Offset(p, size, r) == 0
    ensures r == size - 1 ==> Offset(p, size, r) + Rows(p, size, r) == p.ny
  {
    hide BlockStart;
    hide BlockSize;
    Ring(r, size);
    hide Prev;
    hide Next;
    BlocksAbut(p.ny, size, r);
    BlocksAbut(p.ny, size, if r == 0 then size - 1 else r - 1);
  }

  /** The x-filled field of rank `r`. */
  function Filled(p: Params, fs: seq<Field>, r: int): (f: Field)
    requires IsCluster(p, fs) && 0 <= r < |fs|
    ensures IsField(p, Rows(p, |fs|, r), f)
  {
    FillX(p, Rows(p, |fs|, r), fs[r])
  }

  /** Where each row of a received field comes from. */
  lemma ReceivedRow(p: Params, fs: seq<Field>, r: int, j: int)
    requires IsCluster(p, fs) && 1 < |fs| && 0 <= r < |fs| && 0 <= j < Height(p, Rows(p, |fs|, r))
    ensures var n, a, b := |fs|, Prev(r, |fs|), Next(r, |fs|);
            && 0 <= a < n && 0 <= b < n
            && Received(p, fs, r)[j] ==
                 if j < p.ng then Filled(p, fs, a)[Rows(p, n, a) + j]
                 else if j >= p.ng + Rows(p, n, r) then Filled(p, fs, b)[j - Rows(p, n, r)]
                 else Filled(p, fs, r)[j]
  {
    hide BlockSize;
    hide FillX;
  }

  lemma FilledRows(p: Params, fs: seq<Field>, g: Grid, r: int, i: int, j: int)
    requires Owns(p, fs, g) && 0 <= r < |fs| && 0 <= i < Width(p)
    requires p.ng <= j < p.ng + Rows(p, |fs|, r)
    ensures 0 <= Offset(p, |fs|, r) && Offset(p, |fs|, r) + Rows(p, |fs|, r) <= p.ny
    ensures Filled(p, fs, r)[j][i] == At(p, g, i - p.ng, Offset(p, |fs|, r) + j - p.ng)
  {
    hide BlockSize;
    hide BlockStart;
    hide At;
    BlockFits(p, |fs|, r);
    assert OwnsBlock(p, |fs|, r, fs[r], g);
    FillXRows(p, Rows(p, |fs|, r), Offset(p, |fs|, r), fs[r], g, i, j);
  }

  lemma ReceivedExtends(p: Params, fs: seq<Field>, g: Grid, r: int, depth: int)
    requires Owns(p, fs, g) && Wide(p, |fs|, depth) && 0 <= depth <= p.ng && 1 < |fs| && 0 <= r < |fs|
    ensures HaloedBlock(p, |fs|, r, Received(p, fs, r), g, depth)
  {
    hide BlockSize;
    hide BlockStart;
    hide Received;
    hide ExtendsCell;
    hide OwnsBlock;
    BlockFits(p, |fs|, r);
    forall i, j | Near(p, Rows(p, |fs|, r), depth, i, j)
      ensures ExtendsCell(p, Rows(p, |fs|, r), Offset(p, |fs|, r), Received(p, fs, r), g, i, j)
    {
      ReceivedCell(p, fs, g, r, i, j, depth);
    }
  }

  lemma ReceivedCell(p: Params, fs: seq<Field>, g: Grid, r: int, i: int, j: int, depth: int)
    requires Owns(p, fs, g) && Wide(p, |fs|, depth) && 0 <= depth <= p.ng && 1 < |fs| && 0 <= r < |fs|
    requires Near(p, Rows(p, |fs|, r), depth, i, j)
    ensures 0 <= Offset(p, |fs|, r) && Offset(p, |fs|, r) + Rows(p, |fs|, r) <= p.ny && 1 <= Rows(p, |fs|, r)
    ensures ExtendsCell(p, Rows(p, |fs|, r), Offset(p, |fs|, r), Received(p, fs, r), g, i, j)
  {
    hide BlockSize;
    hide BlockStart;
    hide Filled;
    hide At;
    hide OwnsBlock;
    hide Received;
    var n := |fs|;
    var a, b := Prev(r, n), Next(r, n);
    RingNeighbours(p, n, r);
    hide Prev;
    hide Next;
    BlockFits(p, n, r);
    RowsAtLeast(p, n, a, depth);
    RowsAtLeast(p, n, b, depth);
    ReceivedRow(p, fs, r, j);
    var rows, start := Rows(p, n, r), Offset(p, n, r);
    if j < p.ng {
      FilledRows(p, fs, g, a, i, Rows(p, n, a) + j);
      SameRow(p, g, i - p.ng, start + j - p.ng, Offset(p, n, a) + Rows(p, n, a) + j - p.ng);
    } else if j >= p.ng + rows {
      FilledRows(p, fs, g, b, i, j - rows);
      SameRow(p, g, i - p.ng, start + j - p.ng, Offset(p, n, b) + j - rows - p.ng);
    } else {
      FilledRows(p, fs, g, r, i, j);
    }
  }

  lemma SameRow(p: Params, g: Grid, i: int, j: int, k: int)
    requires Shape(g, p.nx, p.ny)
    requires -p.nx <= i < 2 * p.nx && -p.ny <= j < 2 * p.ny && 0 <= k < p.ny
    requires k == j || k == j + p.ny || k == j - p.ny
    ensures At(p, g, i, j) == At(p, g, i, k)
  {
  }

  lemma RowsAtLeast(p: Params, size: int, r: int, depth: int)
    requires 0 < size
    ensures Wide(p, size, depth) ==> depth <= Rows(p, size, r)
  {
  }

  /** The exchange extends every rank's rows periodically, as far out as ranks have rows: edges,
      corners, and every column. */
  lemma ExchangeHalos(p: Params, fs: seq<Field>, g: Grid, depth: int)
    requires Owns(p, fs, g) && Wide(p, |fs|, depth) && 0 <= depth <= p.ng
    ensures HaloedWithin(p, Exchange(p, fs), g, depth)
  {
    hide FillX;
    hide FillY;
    hide At;
    hide Received;
    if |fs| == 1 {
      LoneRankExtends(p, fs[0], g);
    } else {
      forall r | 0 <= r < |fs| ensures HaloedBlock(p, |fs|, r, Exchange(p, fs)[r], g, depth) {
        ReceivedExtends(p, fs, g, r, depth);
      }
    }
  }

  /** The serial fill: wrapping rows in place of exchanging them gives the periodic extension. */
  lemma LoneRankExtends(p: Params, f: Field, g: Grid)
    requires Shape(g, p.nx, p.ny) && IsField(p, Rows(p, 1, 0), f) && OwnsBlock(p, 1, 0, f, g)
    ensures HaloedBlock(p, 1, 0, FillY(p, Rows(p, 1, 0), FillX(p, Rows(p, 1, 0), f)), g, p.ng)
  {
    hide FillX;
    hide At;
    var rows := p.ny;
    assert Rows(p, 1, 0) == rows && Offset(p, 1, 0) == 0;
    var x := FillX(p, rows, f);
    forall i, j | InField(p, rows, i, j) ensures ExtendsCell(p, rows, 0, FillY(p, rows, x), g, i, j) {
      var k := HaloSource(j, rows, p.ng);
      FillXRows(p, rows, 0, f, g, i, k);
      SameRow(p, g, i - p.ng, j - p.ng, k - p.ng);
    }
  }

  /** The serial halo fill is exactly periodic extension, corners included: it leaves the interior
      alone, gives every cell the interior cell at the wrapped index, and once is enough. */
  lemma SerialFillIsPeriodic(p: Params, f: Field)
    requires IsField(p, p.ny, f)
    ensures var r := FillY(p, p.ny, FillX(p, p.ny, f));
            && Extends(p, p.ny, 0, r, Interior(p, p.ny, f))
            && Interior(p, p.ny, r) == Interior(p, p.ny, f)
            && FillY(p, p.ny, FillX(p, p.ny, r)) == r
  {
    var g := Interior(p, p.ny, f);
    var r := FillY(p, p.ny, FillX(p, p.ny, f));
    InteriorHeld(p, f);
    FillExtends(p, f, g);
    ExtendsInterior(p, r, g);
    InteriorHeld(p, r);
    FillExtends(p, r, g);
    ExtensionUnique(p, FillY(p, p.ny, FillX(p, p.ny, r)), r, g);
    hide FillX;
    hide FillY;
    hide Interior;
    hide Extends;
  }

  lemma FillExtends(p: Params, f: Field, g: Grid)
    requires Shape(g, p.nx, p.ny) && IsField(p, p.ny, f) && Holds(p, p.ny, 0, f, g)
    ensures Extends(p, p.ny, 0, FillY(p, p.ny, FillX(p, p.ny, f)), g)
  {
    assert Rows(p, 1, 0) == p.ny && Offset(p, 1, 0) == 0;
    hide FillX;
    hide FillY;
    hide Holds;
    hide Extends;
    LoneRankExtends(p, f, g);
  }

  lemma ExtendsInterior(p: Params, f: Field, g: Grid)
    requires Shape(g, p.nx, p.ny) && Extends(p, p.ny, 0, f, g)
    ensures Interior(p, p.ny, f) == g
  {
    forall i, j | 0 <= i < p.nx && 0 <= j < p.ny ensures Interior(p, p.ny, f)[j][i] == g[j][i] {
      assert ExtendsCell(p, p.ny, 0, f, g, p.ng + i, p.ng + j);
    }
    SameGrid(Interior(p, p.ny, f), g, p.nx, p.ny);
  }

  lemma ExtensionUnique(p: Params, f: Field, f': Field, g: Grid)
    requires Shape(g, p.nx, p.ny) && Extends(p, p.ny, 0, f, g) && Extends(p, p.ny, 0, f', g)
    ensures f == f'
  {
    forall i, j | InField(p, p.ny, i, j) ensures f[j][i] == f'[j][i] {
      assert ExtendsCell(p, p.ny, 0, f, g, i, j) && ExtendsCell(p, p.ny, 0, f', g, i, j);
    }
    SameField(p, p.ny, f, f');
  }

  // ----- Any number of ranks computes the reference scheme -----

  lemma AllPhaseOneOwns(p: Params, second: bool, dt: real, fs: seq<Field>, g: Grid)
    requires HaloedWithin(p, fs, g, Reach(second))
    ensures Owns(p, AllPhaseOne(p, second, dt, fs), Floors(p, Euler(p, dt, g, Rhs(p, second, g))))
  {
    hide PhaseOne;
    hide Floors;
    hide Euler;
    hide Rhs;
    hide ExtendsWithin;
    hide Holds;
    forall r | 0 <= r < |fs|
      ensures OwnsBlock(p, |fs|, r, AllPhaseOne(p, second, dt, fs)[r], Floors(p, Euler(p, dt, g, Rhs(p, second, g))))
    {
      BlockFits(p, |fs|, r);
      assert HaloedBlock(p, |fs|, r, fs[r], g, Reach(second));
      PhaseOneHolds(p, Rows(p, |fs|, r), Offset(p, |fs|, r), second, dt, fs[r], g);
    }
  }

  lemma AllPhaseTwoOwns(p: Params, dt: real, fs: seq<Field>, ss: seq<Field>, g: Grid, h: Grid)
    requires Owns(p, fs, g) && HaloedWithin(p, ss, h, Reach(true)) && |ss| == |fs|
    ensures Owns(p, AllPhaseTwo(p, dt, fs, ss), Floors(p, Heun(p, dt, g, h, Rhs(p, true, h))))
  {
    hide PhaseTwo;
    hide Floors;
    hide Heun;
    hide Rhs;
    hide ExtendsWithin;
    hide Holds;
    forall r | 0 <= r < |fs|
      ensures OwnsBlock(p, |fs|, r, AllPhaseTwo(p, dt, fs, ss)[r], Floors(p, Heun(p, dt, g, h, Rhs(p, true, h))))
    {
      BlockFits(p, |fs|, r);
      assert OwnsBlock(p, |fs|, r, fs[r], g) && HaloedBlock(p, |ss|, r, ss[r], h, Reach(true));
      PhaseTwoHolds(p, Rows(p, |fs|, r), Offset(p, |fs|, r), dt, fs[r], ss[r], g, h);
    }
  }

  /** One lockstep `advance` of any number of ranks with as many rows as the scheme reaches is one
      reference step. It leaves halos filled as far out as ranks have rows. */
  lemma AdvanceRefines(p: Params, dt: real, fs: seq<Field>, g: Grid, depth: int)
    requires Owns(p, fs, g) && WideForRun(p, |fs|) && Wide(p, |fs|, depth) && 0 <= depth <= p.ng
    ensures HaloedWithin(p, ClusterAdvance(p, dt, fs), Advance(p, dt, g), depth)
  {
    hide Exchange;
    hide AllPhaseOne;
    hide AllPhaseTwo;
    hide Rhs;
    hide Euler;
    hide Heun;
    hide Floors;
    hide HaloedBlock;
    hide OwnsBlock;
    var second := p.reconstruction == MUSCL;
    ExchangeHalos(p, fs, g, Reach(second));
    var us := Exchange(p, fs);
    AllPhaseOneOwns(p, second, dt, us, g);
    match p.reconstruction
    case FirstOrder =>
      ExchangeHalos(p, AllPhaseOne(p, false, dt, us), Advance(p, dt, g), depth);
    case MUSCL =>
      var h := Stage(p, dt, g);
      ExchangeHalos(p, AllPhaseOne(p, true, dt, us), h, Reach(true));
      var ss := Exchange(p, AllPhaseOne(p, true, dt, us));
      HaloedOwns(p, us, g, Reach(true));
      AllPhaseTwoOwns(p, dt, us, ss, g, h);
      ExchangeHalos(p, AllPhaseTwo(p, dt, us, ss), Advance(p, dt, g), depth);
  }

  /** Over any run the ranks hold the reference grid: with the first-order scheme any number the
      constructor accepts, with the second-order one if each has two rows. */
  lemma {:induction false} RunRefines(p: Params, dts: seq<real>, fs: seq<Field>, g: Grid, depth: int)
    requires Owns(p, fs, g) && WideForRun(p, |fs|) && Wide(p, |fs|, depth) && 0 <= depth <= p.ng
    ensures Owns(p, ClusterRun(p, dts, fs), Run(p, dts, g))
    ensures dts != [] ==> HaloedWithin(p, ClusterRun(p, dts, fs), Run(p, dts, g), depth)
    decreases |dts|
  {
    hide ClusterAdvance;
    hide Advance;
    hide HaloedBlock;
    hide OwnsBlock;
    if dts != [] {
      var fs', g' := ClusterAdvance(p, dts[0], fs), Advance(p, dts[0], g);
      AdvanceRefines(p, dts[0], fs, g, depth);
      HaloedOwns(p, fs', g', depth);
      RunRefines(p, dts[1..], fs', g', depth);
    }
  }

  /** In particular, first-order runs are right on every number of ranks the constructor accepts. */
  lemma FirstOrderRunRefines(p: Params, dts: seq<real>, fs: seq<Field>, g: Grid)
    requires Owns(p, fs, g) && p.reconstruction == FirstOrder
    ensures Owns(p, ClusterRun(p, dts, fs), Run(p, dts, g))
  {
    hide ClusterRun;
    hide Run;
    hide OwnsBlock;
    AtLeastOne(p.ny, |fs|);
    RunRefines(p, dts, fs, g, 0);
  }

  lemma LoneBlock(p: Params)
    ensures Rows(p, 1, 0) == p.ny && Offset(p, 1, 0) == 0
    ensures WideForRun(p, 1) && Wide(p, 1, p.ng)
  {
  }

  /** A distributed run and a serial run from the same grid agree: row ng + j of rank r is serial
      row ng + offset + j in every column, ghost columns included. So are the ghost rows as far out
      as ranks have rows. */
  lemma DistributedEqualsSerial(p: Params, dts: seq<real>, fs: seq<Field>, serial: Field, g: Grid,
                                r: int, i: int, j: int, depth: int)
    requires Owns(p, fs, g) && WideForRun(p, |fs|) && Owns(p, [serial], g)
    requires Wide(p, |fs|, depth) && 0 <= depth <= p.ng
    requires dts != [] && 0 <= r < |fs| && Near(p, Rows(p, |fs|, r), depth, i, j)
    ensures var n := |fs|;
            && 1 <= Rows(p, n, r) && 0 <= Offset(p, n, r) + j < Height(p, p.ny)
            && ClusterRun(p, dts, fs)[r][j][i] == ClusterRun(p, dts, [serial])[0][Offset(p, n, r) + j][i]
  {
    hide ClusterRun;
    hide Run;
    hide At;
    hide HaloedWithin;
    hide OwnsBlock;
    hide BlockSize;
    hide BlockStart;
    hide Wide;
    var n := |fs|;
    BlockFits(p, n, r);
    LoneBlock(p);
    RunRefines(p, dts, fs, g, depth);
    RunRefines(p, dts, [serial], g, p.ng);
    var h := Run(p, dts, g);
    NearCell(p, ClusterRun(p, dts, fs), h, depth, r, i, j);
    NearCell(p, ClusterRun(p, dts, [serial]), h, p.ng, 0, i, Offset(p, n, r) + j);
  }

  // ----- When the exchange is right -----

  function UniformField(p: Params, rows: int, inside: State, outside: State): (f: Field)
    requires 1 <= rows
    ensures IsField(p, rows, f)
    ensures forall i, j :: InField(p, rows, i, j) ==> f[j][i] == if InCells(p, rows, i, j) then inside else outside
  {
    seq(Height(p, rows), j requires 0 <= j < Height(p, rows) =>
      seq(Width(p), i requires 0 <= i < Width(p) => if InCells(p, rows, i, j) then inside else outside))
  }

  function UniformGrid(p: Params, s: State): (g: Grid)
    ensures Shape(g, p.nx, p.ny)
    ensures forall i, j :: 0 <= i < p.nx && 0 <= j < p.ny ==> g[j][i] == s
  {
    seq(p.ny, j requires 0 <= j < p.ny => seq(p.nx, i requires 0 <= i < p.nx => s))
  }

  /** Interiors of one state among ghosts of another, on every rank. */
  function UniformCluster(p: Params, size: int, inside: State, outside: State): (fs: seq<Field>)
    requires 1 <= size <= p.ny
    ensures |fs| == size && IsCluster(p, fs)
    ensures forall r :: 0 <= r < size ==>
              1 <= Rows(p, size, r) && fs[r] == UniformField(p, Rows(p, size, r), inside, outside)
  {
    assert forall r :: 0 <= r < size ==> 1 <= Rows(p, size, r) by {
      forall r | 0 <= r < size ensures 1 <= Rows(p, size, r) { BlockFits(p, size, r); }
    }
    seq(size, r requires 0 <= r < size => UniformField(p, Rows(p, size, r), inside, outside))
  }

  lemma UniformOwns(p: Params, size: int, inside: State, outside: State)
    requires 1 <= size <= p.ny
    ensures Owns(p, UniformCluster(p, size, inside, outside), UniformGrid(p, inside))
  {
    hide BlockStart;
    hide BlockSize;
    var fs := UniformCluster(p, size, inside, outside);
    forall r | 0 <= r < size ensures OwnsBlock(p, size, r, fs[r], UniformGrid(p, inside)) {
      BlockFits(p, size, r);
      hide UniformField;
    }
  }

  /** A split the constructor accepts, with some rank narrower than the halo, sends ghost rows as
      if they were interior ones: whatever stale state `outside` the ghosts hold reaches rank 0. */
  lemma NarrowRankBreaksExchange(p: Params, size: int, inside: State, outside: State)
    requires 1 < size <= p.ny && !WideEnough(p, size) && inside != outside
    ensures var fs := UniformCluster(p, size, inside, outside);
            Owns(p, fs, UniformGrid(p, inside)) && !Haloed(p, Exchange(p, fs), UniformGrid(p, inside))
  {
    hide BlockStart;
    hide BlockSize;
    UniformOwns(p, size, inside, outside);
    NarrowRankSendsGhosts(p, size, inside, outside);
    hide UniformCluster;
    hide Received;
    hide HaloedBlock;
    WrongCorner(p, size, Exchange(p, UniformCluster(p, size, inside, outside))[0], inside);
  }

  lemma WrongCorner(p: Params, size: int, f: Field, s: State)
    requires 0 < size <= p.ny && IsField(p, Rows(p, size, 0), f) && f[0][0] != s
    ensures !HaloedBlock(p, size, 0, f, UniformGrid(p, s), p.ng)
  {
    hide BlockStart;
    hide BlockSize;
    BlockFits(p, size, 0);
    assert At(p, UniformGrid(p, s), -p.ng, Offset(p, size, 0) - p.ng) == s;
    assert !ExtendsCell(p, Rows(p, size, 0), Offset(p, size, 0), f, UniformGrid(p, s), 0, 0);
  }

  /** Rank 0 receives the last rank's row `rows`, which is one of that rank's own ghost rows. */
  lemma NarrowRankSendsGhosts(p: Params, size: int, inside: State, outside: State)
    requires 1 < size <= p.ny && !WideEnough(p, size)
    ensures 1 <= Rows(p, size, 0)
    ensures Received(p, UniformCluster(p, size, inside, outside), 0)[0][0] == outside
  {
    hide BlockStart;
    var fs, last := UniformCluster(p, size, inside, outside), size - 1;
    var rows := Rows(p, size, last);
    assert p.ny % size < size;
    assert 1 <= rows < p.ng;
    BlockFits(p, size, 0);
    hide BlockSize;
    Ring(0, size);
    hide Prev;
    hide Next;
    hide Received;
    ReceivedRow(p, fs, 0, 0);
    assert InField(p, rows, 0, rows) && InField(p, rows, p.nx, rows);
    hide UniformCluster;
  }

  /** The exchange is right on every input exactly when every rank owns at least `ng` rows. */
  lemma ExchangeRightIffWide(p: Params, size: int)
    requires 1 <= size <= p.ny
    ensures (forall fs, g :: Owns(p, fs, g) && |fs| == size ==> Haloed(p, Exchange(p, fs), g)) <==> WideEnough(p, size)
  {
    if WideEnough(p, size) {
      forall fs, g | Owns(p, fs, g) && |fs| == size ensures Haloed(p, Exchange(p, fs), g) {
        ExchangeHalos(p, fs, g, p.ng);
      }
    } else {
      NarrowRankBreaksExchange(p, size, ZERO, ZERO.(rho := 1.0));
    }
  }
}
