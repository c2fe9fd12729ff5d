/** Splitting n items over `size` ranks: the first n % size ranks get one more than the others. */
module RowSplit {

  function BlockSize(n: int, size: int, rank: int): int
    requires 0 < size
  {
    n / size + (if rank < n % size then 1 else 0)
  }

  function BlockStart(n: int, size: int, rank: int): int
    requires 0 < size
  {
    rank * (n / size) + (if rank < n % size then rank else n % size)
  }

  /** The blocks lie end to end, from 0 to n. */
  lemma BlocksAbut(n: int, size: int, rank: int)
    requires 0 < size && 0 <= n && 0 <= rank < size
    ensures BlockStart(n, size, rank + 1) == BlockStart(n, size, rank) + BlockSize(n, size, rank)
    ensures BlockStart(n, size, 0) == 0 && BlockStart(n, size, size) == n
  {
    assert (rank + 1) * (n / size) == rank * (n / size) + n / size;
  }

  lemma {:induction false} StartsIncrease(n: int, size: int, r: int, q: int)
    requires 0 < size && 0 <= n && 0 <= r <= q <= size
    ensures BlockStart(n, size, r) <= BlockStart(n, size, q)
    decreases q - r
  {
    hide BlockStart;
    if r < q {
      BlocksAbut(n, size, r);
      StartsIncrease(n, size, r + 1, q);
    }
  }

  lemma BlocksInRange(n: int, size: int, r: int)
    requires 0 < size && 0 <= n && 0 <= r <= size
    ensures 0 <= BlockStart(n, size, r) <= n
  {
    hide BlockStart;
    BlocksAbut(n, size, 0);
    StartsIncrease(n, size, 0, r);
    StartsIncrease(n, size, r, size);
  }

  /** Every item lies in exactly one block, and blocks differ in size by at most one. */
  lemma BlocksPartition(n: int, size: int, k: int) returns (owner: int)
    requires 0 < size && 0 <= k < n
    ensures 0 <= owner < size
    ensures forall r :: 0 <= r < size ==>
              (BlockStart(n, size, r) <= k < BlockStart(n, size, r) + BlockSize(n, size, r) <==> r == owner)
    ensures forall r :: 0 <= r < size ==> n / size <= BlockSize(n, size, r) <= n / size + 1
  {
    BlocksAbut(n, size, 0);
    hide BlockStart;
    owner := 0;
    while BlockStart(n, size, owner + 1) <= k
      invariant 0 <= owner < size
      invariant BlockStart(n, size, owner) <= k
      decreases size - owner
    {
      owner := owner + 1;
    }
    forall r | 0 <= r < size
      ensures BlockStart(n, size, r) <= k < BlockStart(n, size, r) + BlockSize(n, size, r) <==> r == owner
    {
      BlocksAbut(n, size, r);
      if r < owner {
        StartsIncrease(n, size, r + 1, owner);
      } else if owner < r {
        StartsIncrease(n, size, owner + 1, r);
      }
    }
  }
}
