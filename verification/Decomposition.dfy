/** The two array decompositions of the examples: 1D blocks over all ranks, with the gather that
    recovers them, and 2D tiles over a grid of ranks. */
module Decomposition {
  import opened MachineWords
  import opened RowSplit
  import opened Arithmetic

  // ----- 1D -----

  method Decomp1D(globalSize: int, nproc: int, rank: int) returns (myOffset: int, mySize: int)
    requires 0 <= globalSize < TWO64 && 0 <= rank < nproc
    ensures mySize == BlockSize(globalSize, nproc, rank) && myOffset == BlockStart(globalSize, nproc, rank)
    ensures 0 <= myOffset && 0 <= mySize && myOffset + mySize <= globalSize
  {
    BlocksAbut(globalSize, nproc, rank);
    BlocksInRange(globalSize, nproc, rank);
    BlocksInRange(globalSize, nproc, rank + 1);
    mySize := globalSize / nproc;
    var rem := globalSize - nproc * mySize;
    assert rem == globalSize % nproc;
    if rank < rem {
      mySize := mySize + 1;
      myOffset := rank * mySize;
      assert rank * mySize == rank * (globalSize / nproc) + rank;
    } else {
      myOffset := rank * mySize + rem;
    }
  }

  function SumOf(sizes: seq<int>): int {
    if sizes == [] then 0 else SumOf(sizes[..|sizes| - 1]) + sizes[|sizes| - 1]
  }

  /** What every process computes from the gathered sizes, in 64-bit unsigned arithmetic. */
  method GatherDecomp1D(sizes: seq<int>, rank: int) returns (myShape: int, myOffset: int)
    requires 0 <= rank < |sizes| && forall k :: 0 <= k < |sizes| ==> 0 <= sizes[k] < TWO64
    ensures myShape == SumOf(sizes) % TWO64
    ensures myOffset == SumOf(sizes[..rank]) % TWO64
  {
    myShape := 0;
    for i := 0 to |sizes|
      invariant myShape == SumOf(sizes[..i]) % TWO64
    {
      assert sizes[..i + 1][..i] == sizes[..i];
      ModAdds(SumOf(sizes[..i]), sizes[i], TWO64);
      myShape := (myShape + sizes[i]) % TWO64;
    }
    assert sizes[..|sizes|] == sizes;
    myOffset := 0;
    for i := 0 to rank
      invariant myOffset == SumOf(sizes[..i]) % TWO64
    {
      assert sizes[..i + 1][..i] == sizes[..i];
      ModAdds(SumOf(sizes[..i]), sizes[i], TWO64);
      myOffset := (myOffset + sizes[i]) % TWO64;
    }
  }

  function BlockSizes(n: int, nproc: int): seq<int>
    requires 0 < nproc
  {
    seq(nproc, r requires 0 <= r < nproc => BlockSize(n, nproc, r))
  }

  /** Gathering the block sizes gives back the whole and every offset. */
  lemma {:induction false} GatherRecovers(n: int, nproc: int, rank: int)
    requires 0 <= n && 0 <= rank <= nproc && 0 < nproc
    ensures SumOf(BlockSizes(n, nproc)[..rank]) == BlockStart(n, nproc, rank)
    ensures SumOf(BlockSizes(n, nproc)) == n
    decreases rank
  {
    SizesAddUp(n, nproc, rank);
    SizesAddUp(n, nproc, nproc);
    BlocksAbut(n, nproc, 0);
    assert BlockSizes(n, nproc)[..nproc] == BlockSizes(n, nproc);
  }

  lemma {:induction false} SizesAddUp(n: int, nproc: int, k: int)
    requires 0 <= n && 0 <= k <= nproc && 0 < nproc
    ensures SumOf(BlockSizes(n, nproc)[..k]) == BlockStart(n, nproc, k)
  {
    hide BlockStart;
    hide BlockSize;
    if k == 0 {
      BlocksAbut(n, nproc, 0);
    } else {
      SizesAddUp(n, nproc, k - 1);
      BlocksAbut(n, nproc, k - 1);
      assert BlockSizes(n, nproc)[..k][..k - 1] == BlockSizes(n, nproc)[..k - 1];
    }
  }

  // ----- 2D -----

  function TileStart(n: int, parts: int, k: int): int
    requires 0 < parts
  {
    (n / parts) * k
  }

  function TileSize(n: int, parts: int, k: int): int
    requires 0 < parts
  {
    if k == parts - 1 then n - (n / parts) * (parts - 1) else n / parts
  }

  class SkeletonArgs {
    const npx: int
    const npy: int
    const rank: int
    var gndx: int
    var gndy: int
    var posx: int
    var posy: int
    var ndx: int
    var ndy: int
    var offsx: int
    var offsy: int

    constructor (npx: int, npy: int, rank: int)
      ensures this.npx == npx && this.npy == npy && this.rank == rank
    {
      this.npx, this.npy, this.rank := npx, npy, rank;
      gndx, gndy, posx, posy := 0, 0, 0, 0;
      ndx, ndy, offsx, offsy := 0, 0, 0, 0;
    }

    method DecomposeArray(nx: int, ny: int)
      requires 0 < npx && 0 < npy && 0 <= rank < npx * npy && 0 <= nx && 0 <= ny
      modifies this
      ensures gndx == nx % TWO32 && gndy == ny % TWO32
      ensures posx == rank % npx && posy == rank / npx && posy < npy
      ensures offsx == TileStart(gndx, npx, posx) && ndx == TileSize(gndx, npx, posx)
      ensures offsy == TileStart(gndy, npy, posy) && ndy == TileSize(gndy, npy, posy)
    {
      RankPosition(rank, npx, npy);
      gndx := nx % TWO32;
      gndy := ny % TWO32;
      posx := rank % npx;
      posy := rank / npx;

      ndx := gndx / npx;
      ndy := gndy / npy;
      offsx := ndx * posx;
      offsy := ndy * posy;
      if posx == npx - 1 {
        // right-most processes take the rest
        ndx := gndx - ndx * (npx - 1);
      }
      if posy == npy - 1 {
        ndy := gndy - ndy * (npy - 1);
      }
    }
  }

  lemma RankPosition(rank: int, npx: int, npy: int)
    requires 0 < npx && 0 < npy && 0 <= rank < npx * npy
    ensures 0 <= rank % npx < npx && 0 <= rank / npx < npy && rank == (rank / npx) * npx + rank % npx
  {
    assert npx * npy == npy * npx;
    LineBelow(npx, rank / npx, rank % npx, npy);
  }

  predicate InTile(n: int, parts: int, k: int, x: int)
    requires 0 < parts
  {
    TileStart(n, parts, k) <= x < TileStart(n, parts, k) + TileSize(n, parts, k)
  }

  /** Along one axis every index lies in exactly one tile. */
  lemma TilesPartition(n: int, parts: int, x: int) returns (owner: int)
    requires 0 < parts && 0 <= x < n
    ensures 0 <= owner < parts
    ensures forall k :: 0 <= k < parts ==> (InTile(n, parts, k, x) <==> k == owner)
  {
    var d := n / parts;
    if d * (parts - 1) <= x {
      owner := parts - 1;
    } else {
      assert 0 < d by {
        assert d == 0 ==> d * (parts - 1) == 0;
      }
      owner := x / d;
      LineBelow(d, x / d, x % d, parts - 1) by {
        assert (x / d) * d + x % d == x;
      }
      assert d * owner == (x / d) * d;
    }
    forall k | 0 <= k < parts ensures InTile(n, parts, k, x) <==> k == owner {
      TileDecides(d, parts, n, x, owner, k);
    }
  }

  lemma TileDecides(d: int, parts: int, n: int, x: int, owner: int, k: int)
    requires 0 < parts && d == n / parts && 0 <= d && 0 <= x < n && 0 <= owner < parts && 0 <= k < parts
    requires d * owner <= x && (owner < parts - 1 ==> x < d * (owner + 1))
    ensures InTile(n, parts, k, x) <==> k == owner
  {
    if k < owner {
      NonNegativeTimes(owner - k - 1, d);
      assert d * owner == d * k + d + d * (owner - k - 1);
    } else if owner < k {
      NonNegativeTimes(k - owner - 1, d);
      assert d * k == d * (owner + 1) + d * (k - owner - 1);
    } else {
      assert d * (owner + 1) == d * owner + d;
    }
  }

  /** Rank r's rectangle. */
  predicate InRectangle(gx: int, gy: int, npx: int, npy: int, r: int, x: int, y: int)
    requires 0 < npx && 0 < npy
  {
    InTile(gx, npx, r % npx, x) && InTile(gy, npy, r / npx, y)
  }

  /** When the ranks fill the process grid, their rectangles cover every cell exactly once. */
  lemma RectanglesTile(gx: int, gy: int, npx: int, npy: int, x: int, y: int) returns (owner: int)
    requires 0 < npx && 0 < npy && 0 <= x < gx && 0 <= y < gy
    ensures 0 <= owner < npx * npy
    ensures forall r :: 0 <= r < npx * npy ==> (InRectangle(gx, gy, npx, npy, r, x, y) <==> r == owner)
  {
    var a := TilesPartition(gx, npx, x);
    var b := TilesPartition(gy, npy, y);
    hide InTile;
    owner := b * npx + a;
    LinePosition(npx, b, a, npy);
    assert npy * npx == npx * npy;
    RankPosition(owner, npx, npy);
    LineUnique(npx, b, a, owner / npx, owner % npx);
    forall r | 0 <= r < npx * npy ensures InRectangle(gx, gy, npx, npy, r, x, y) <==> r == owner {
      RankPosition(r, npx, npy);
    }
  }

  // ----- The array the reader really has -----

  /** The first `nproc` ranks read every cell of an nx by ny array, each cell once. */
  ghost predicate ReadOnce(nx: int, ny: int, npx: int, npy: int, nproc: int)
    requires 0 < npx && 0 < npy
  {
    forall x, y :: 0 <= x < nx && 0 <= y < ny ==> HasOneReader(nx, ny, npx, npy, nproc, x, y)
  }

  ghost predicate HasOneReader(nx: int, ny: int, npx: int, npy: int, nproc: int, x: int, y: int)
    requires 0 < npx && 0 < npy
  {
    exists owner :: 0 <= owner < nproc && IsOnlyReader(nx, ny, npx, npy, nproc, owner, x, y)
  }

  ghost predicate IsOnlyReader(nx: int, ny: int, npx: int, npy: int, nproc: int, owner: int, x: int, y: int)
    requires 0 < npx && 0 < npy
  {
    forall r :: 0 <= r < nproc ==> (Reads(nx, ny, npx, npy, r, x, y) <==> r == owner)
  }

  /** Rank r's rectangle covers cell (x, y); the rectangles divide the sizes cut to 32 bits. */
  predicate Reads(nx: int, ny: int, npx: int, npy: int, r: int, x: int, y: int)
    requires 0 < npx && 0 < npy
  {
    InRectangle(nx % TWO32, ny % TWO32, npx, npy, r, x, y)
  }

  /** The constructor's check of the process count, a product of 32-bit numbers. */
  predicate CountAccepted(npx: int, npy: int, nproc: int) {
    0 <= npx < TWO32 && 0 <= npy < TWO32 && (npx * npy) % TWO32 == nproc
  }

  lemma TileInside(n: int, parts: int, k: int, x: int)
    requires 0 < parts && 0 <= k < parts && 0 <= n && InTile(n, parts, k, x)
    ensures 0 <= x < n
  {
    var d := n / parts;
    NonNegativeTimes(d, k);
    if k < parts - 1 {
      NonNegativeTimes(parts - 1 - k, d);
      assert d * k + d + d * (parts - 1 - k) == d * parts <= n;
    }
  }

  /** The last rank alone owns the last cell. */
  lemma LastCellOwner(gx: int, gy: int, npx: int, npy: int, r: int)
    requires 0 < npx && 0 < npy && 0 < gx && 0 < gy && 0 <= r < npx * npy
    requires InRectangle(gx, gy, npx, npy, r, gx - 1, gy - 1)
    ensures r == npx * npy - 1
  {
    RankPosition(r, npx, npy);
    LastTile(gx, npx, r % npx);
    LastTile(gy, npy, r / npx);
    assert (npy - 1) * npx + (npx - 1) == npx * npy - 1;
  }

  lemma LastTile(n: int, parts: int, k: int)
    requires 0 < parts && 0 <= k < parts && 0 < n && InTile(n, parts, k, n - 1)
    ensures k == parts - 1
  {
    if k < parts - 1 {
      var d := n / parts;
      assert 0 < d;
      assert d * k + d <= d * (parts - 1) by {
        NonNegativeTimes(parts - 2 - k, d);
        assert d * (parts - 1) == d * k + d + d * (parts - 2 - k);
      }
    }
  }

  /** Every cell of the array is read, and read once, exactly when both sizes fit 32 bits and the
      process count is the product without its wrap-around. */
  lemma ReadOnceIff(nx: int, ny: int, npx: int, npy: int, nproc: int)
    requires 0 < npx && 0 < npy && 0 < nx && 0 < ny && CountAccepted(npx, npy, nproc)
    ensures ReadOnce(nx, ny, npx, npy, nproc) <==> nx < TWO32 && ny < TWO32 && npx * npy == nproc
  {
    NonNegativeTimes(npx, npy);
    assert 0 <= nproc <= npx * npy;
    var gx, gy := nx % TWO32, ny % TWO32;
    if nx < TWO32 && ny < TWO32 && npx * npy == nproc {
      forall x, y | 0 <= x < nx && 0 <= y < ny ensures HasOneReader(nx, ny, npx, npy, nproc, x, y) {
        var owner := RectanglesTile(gx, gy, npx, npy, x, y);
        assert IsOnlyReader(nx, ny, npx, npy, nproc, owner, x, y);
      }
    } else {
      UnreadCell(nx, ny, npx, npy, nproc);
    }
  }

  lemma UnreadCell(nx: int, ny: int, npx: int, npy: int, nproc: int)
    requires 0 < npx && 0 < npy && 0 < nx && 0 < ny && 0 <= nproc <= npx * npy
    requires nx >= TWO32 || ny >= TWO32 || nproc < npx * npy
    ensures !HasOneReader(nx, ny, npx, npy, nproc, nx - 1, ny - 1)
  {
    var x, y := nx - 1, ny - 1;
    forall r | 0 <= r < nproc ensures !Reads(nx, ny, npx, npy, r, x, y) {
      if Reads(nx, ny, npx, npy, r, x, y) {
        RankPosition(r, npx, npy);
        TileInside(nx % TWO32, npx, r % npx, x);
        TileInside(ny % TWO32, npy, r / npx, y);
        LastCellOwner(nx, ny, npx, npy, r);
      }
    }
    hide Reads;
    forall owner | 0 <= owner < nproc ensures !IsOnlyReader(nx, ny, npx, npy, nproc, owner, x, y) {
      assert !Reads(nx, ny, npx, npy, owner, x, y);
    }
  }

  /** An array of 2^32 + 5 columns: all ranks together read the first five. */
  lemma WideArrayPartlyRead(ny: int, npx: int, npy: int, r: int, x: int, y: int)
    requires 0 < npx && 0 < npy && 0 <= r < npx * npy && Reads(TWO32 + 5, ny, npx, npy, r, x, y)
    ensures 0 <= x < 5
  {
    RankPosition(r, npx, npy);
    TileInside(5, npx, r % npx, x);
  }

  /** A process grid of 2147483649 by 2 passes the check for two processes. */
  lemma WrappedCountAccepted()
    ensures CountAccepted(2147483649, 2, 2)
    ensures !ReadOnce(4, 4, 2147483649, 2, 2)
  {
    ReadOnceIff(4, 4, 2147483649, 2, 2);
  }
}
