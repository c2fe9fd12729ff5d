/** Sums and maxima over index ranges, and over the cells of a grid. */
module Sums {
  import opened States

  function Sum(n: nat, f: int -> real): real {
    if n == 0 then 0.0 else Sum(n - 1, f) + f(n - 1)
  }

  lemma {:induction false} SumExt(n: nat, f: int -> real, g: int -> real)
    requires forall k :: 0 <= k < n ==> f(k) == g(k)
    ensures Sum(n, f) == Sum(n, g)
  {
    if n != 0 { SumExt(n - 1, f, g); }
  }

  lemma {:induction false} SumSplit(m: nat, n: nat, f: int -> real)
    ensures Sum(m + n, f) == Sum(m, f) + Sum(n, k => f(m + k))
  {
    if n != 0 { SumSplit(m, n - 1, f); }
  }

  lemma {:induction false} SumAdd(n: nat, f: int -> real, g: int -> real, h: int -> real)
    requires forall k :: 0 <= k < n ==> h(k) == f(k) + g(k)
    ensures Sum(n, h) == Sum(n, f) + Sum(n, g)
  {
    if n != 0 { SumAdd(n - 1, f, g, h); }
  }

  lemma {:induction false} SumScale(n: nat, c: real, f: int -> real, h: int -> real)
    requires forall k :: 0 <= k < n ==> h(k) == Times(c, f(k))
    ensures Sum(n, h) == Times(c, Sum(n, f))
  {
    if n != 0 {
      SumScale(n - 1, c, f, h);
      TimesAdds(c, Sum(n - 1, f), f(n - 1));
      hide Times;
    } else {
      TimesAdds(c, 0.0, 0.0);
    }
  }

  /** Termwise larger sums are larger, and equal only when every term is. */
  lemma {:induction false} SumMonotone(n: nat, f: int -> real, g: int -> real)
    requires forall k :: 0 <= k < n ==> f(k) <= g(k)
    ensures Sum(n, f) <= Sum(n, g)
    ensures Sum(n, f) == Sum(n, g) ==> forall k :: 0 <= k < n ==> f(k) == g(k)
  {
    if n != 0 { SumMonotone(n - 1, f, g); }
  }

  function RowSum(nx: nat, e: (int, int) -> real, j: int): real {
    Sum(nx, i => e(i, j))
  }

  function GridSum(nx: nat, ny: nat, e: (int, int) -> real): real {
    Sum(ny, j => RowSum(nx, e, j))
  }

  lemma GridSumExt(nx: nat, ny: nat, e: (int, int) -> real, f: (int, int) -> real)
    requires forall i, j :: 0 <= i < nx && 0 <= j < ny ==> e(i, j) == f(i, j)
    ensures GridSum(nx, ny, e) == GridSum(nx, ny, f)
  {
    forall j | 0 <= j < ny ensures RowSum(nx, e, j) == RowSum(nx, f, j) {
      SumExt(nx, i => e(i, j), i => f(i, j));
    }
    SumExt(ny, j => RowSum(nx, e, j), j => RowSum(nx, f, j));
  }

  lemma GridSumAdd(nx: nat, ny: nat, e: (int, int) -> real, f: (int, int) -> real, h: (int, int) -> real)
    requires forall i, j :: 0 <= i < nx && 0 <= j < ny ==> h(i, j) == e(i, j) + f(i, j)
    ensures GridSum(nx, ny, h) == GridSum(nx, ny, e) + GridSum(nx, ny, f)
  {
    forall j | 0 <= j < ny ensures RowSum(nx, h, j) == RowSum(nx, e, j) + RowSum(nx, f, j) {
      SumAdd(nx, i => e(i, j), i => f(i, j), i => h(i, j));
    }
    SumAdd(ny, j => RowSum(nx, e, j), j => RowSum(nx, f, j), j => RowSum(nx, h, j));
  }

  lemma GridSumScale(nx: nat, ny: nat, c: real, e: (int, int) -> real, h: (int, int) -> real)
    requires forall i, j :: 0 <= i < nx && 0 <= j < ny ==> h(i, j) == Times(c, e(i, j))
    ensures GridSum(nx, ny, h) == Times(c, GridSum(nx, ny, e))
  {
    forall j | 0 <= j < ny ensures RowSum(nx, h, j) == Times(c, RowSum(nx, e, j)) {
      SumScale(nx, c, i => e(i, j), i => h(i, j));
    }
    SumScale(ny, c, j => RowSum(nx, e, j), j => RowSum(nx, h, j));
  }

  lemma GridSumMonotone(nx: nat, ny: nat, e: (int, int) -> real, f: (int, int) -> real)
    requires forall i, j :: 0 <= i < nx && 0 <= j < ny ==> e(i, j) <= f(i, j)
    ensures GridSum(nx, ny, e) <= GridSum(nx, ny, f)
    ensures GridSum(nx, ny, e) == GridSum(nx, ny, f) ==>
              forall i, j :: 0 <= i < nx && 0 <= j < ny ==> e(i, j) == f(i, j)
  {
    forall j | 0 <= j < ny ensures RowSum(nx, e, j) <= RowSum(nx, f, j) {
      SumMonotone(nx, i => e(i, j), i => f(i, j));
    }
    var se, sf := j => RowSum(nx, e, j), j => RowSum(nx, f, j);
    SumMonotone(ny, se, sf);
    if GridSum(nx, ny, e) == GridSum(nx, ny, f) {
      forall i, j | 0 <= i < nx && 0 <= j < ny ensures e(i, j) == f(i, j) {
        assert se(j) == sf(j);
        var re, rf := i => e(i, j), i => f(i, j);
        SumMonotone(nx, re, rf);
        assert re(i) == rf(i);
      }
    }
  }

  /** A sum over the grid, row block by row block; `f` is `e` shifted up by the first block. */
  lemma GridSumSplit(nx: nat, m: nat, n: nat, e: (int, int) -> real, f: (int, int) -> real)
    requires forall i, j :: 0 <= i < nx && 0 <= j < n ==> f(i, j) == e(i, m + j)
    ensures GridSum(nx, m + n, e) == GridSum(nx, m, e) + GridSum(nx, n, f)
  {
    var rows := j => RowSum(nx, e, j);
    SumSplit(m, n, rows);
    forall k | 0 <= k < n ensures RowSum(nx, e, m + k) == RowSum(nx, f, k) {
      SumExt(nx, i => e(i, m + k), i => f(i, k));
    }
    SumExt(n, k => rows(m + k), j => RowSum(nx, f, j));
  }

  // ----- Telescoping -----

  /** One term of a discrete divergence with damping. */
  function Balance(xw: real, xe: real, ys: real, yn: real, c: real, dx: real, dy: real, k: real): real
    requires dx != 0.0 && dy != 0.0
  {
    NetFlux(xw, xe, ys, yn, dx, dy) - Times(k, c)
  }

  /** Each term of `e` is one cell's balance of the fluxes `x`, `y` and the damped `c`. */
  ghost predicate Balances(nx: nat, ny: nat, x: (int, int) -> real, y: (int, int) -> real, c: (int, int) -> real,
                           e: (int, int) -> real, dx: real, dy: real, k: real)
    requires dx != 0.0 && dy != 0.0
  {
    forall i, j :: 0 <= i < nx && 0 <= j < ny ==>
      e(i, j) == Balance(x(i, j), x(i + 1, j), y(i, j), y(i, j + 1), c(i, j), dx, dy, k)
  }

  ghost predicate EdgesMatch(nx: nat, ny: nat, x: (int, int) -> real, y: (int, int) -> real) {
    && (forall j :: 0 <= j < ny ==> x(0, j) == x(nx, j))
    && (forall i :: 0 <= i < nx ==> y(i, 0) == y(i, ny))
  }

  lemma {:induction false} RowBalance(n: nat, j: int, x: (int, int) -> real, y: (int, int) -> real,
                                      c: (int, int) -> real,
                                      e: (int, int) -> real, dx: real, dy: real, k: real)
    requires dx != 0.0 && dy != 0.0
    requires forall i :: 0 <= i < n ==>
               e(i, j) == Balance(x(i, j), x(i + 1, j), y(i, j), y(i, j + 1), c(i, j), dx, dy, k)
    ensures RowSum(n, e, j)
         == Balance(x(0, j), x(n, j), RowSum(n, y, j), RowSum(n, y, j + 1), RowSum(n, c, j), dx, dy, k)
  {
    if n == 0 {
      QuotientAdds(0.0, 0.0, dx);
      QuotientAdds(0.0, 0.0, dy);
      TimesAdds(k, 0.0, 0.0);
    } else {
      var m := n - 1;
      RowBalance(m, j, x, y, c, e, dx, dy, k);
      QuotientAdds(x(m, j) - x(0, j), x(n, j) - x(m, j), dx);
      QuotientAdds(RowSum(m, y, j + 1) - RowSum(m, y, j), y(m, j + 1) - y(m, j), dy);
      RowSumGrows(m, j, y);
      RowSumGrows(m, j + 1, y);
      RowSumGrows(m, j, c);
      RowSumGrows(m, j, e);
      TimesAdds(k, RowSum(m, c, j), c(m, j));
      hide Quotient;
      hide Times;
      hide RowSum;
    }
  }

  lemma RowSumGrows(m: nat, j: int, y: (int, int) -> real)
    ensures RowSum(m + 1, y, j) == RowSum(m, y, j) + y(m, j)
  {
    SumExt(m, i => y(i, j), i => y(i, j));
  }

  /** The sum of column `i`. */
  function ColumnSum(ny: nat, x: (int, int) -> real, i: int): real {
    Sum(ny, j => x(i, j))
  }

  /** Summed over a rectangle, the flux differences leave the fluxes through its four sides. */
  lemma RectangleBalance(nx: nat, ny: nat, x: (int, int) -> real, y: (int, int) -> real, c: (int, int) -> real,
                         e: (int, int) -> real, dx: real, dy: real, k: real)
    requires dx != 0.0 && dy != 0.0 && Balances(nx, ny, x, y, c, e, dx, dy, k)
    ensures GridSum(nx, ny, e)
         == Balance(ColumnSum(ny, x, 0), ColumnSum(ny, x, nx), RowSum(nx, y, 0), RowSum(nx, y, ny),
                    GridSum(nx, ny, c), dx, dy, k)
  {
    // The row sums balance in turn, now along y, with the two end columns as the other fluxes.
    hide Balance;
    var rowY := (j, l) => RowSum(nx, y, j);
    var rowC := (j, l) => RowSum(nx, c, j);
    var rowE := (j, l) => RowSum(nx, e, j);
    var ends := (j, l) => x(if l == 0 then 0 else nx, j);
    forall j | 0 <= j < ny
      ensures rowE(j, 0) == Balance(rowY(j, 0), rowY(j + 1, 0), ends(j, 0), ends(j, 1), rowC(j, 0), dy, dx, k)
    {
      RowBalance(nx, j, x, y, c, e, dx, dy, k);
      BalanceTurns(x(0, j), x(nx, j), RowSum(nx, y, j), RowSum(nx, y, j + 1), RowSum(nx, c, j), dx, dy, k);
      hide RowSum;
    }
    RowBalance(ny, 0, rowY, ends, rowC, rowE, dy, dx, k);
    AsSum(ny, rowE, 0, j => RowSum(nx, e, j));
    AsSum(ny, rowC, 0, j => RowSum(nx, c, j));
    AsSum(ny, ends, 0, j => x(0, j));
    AsSum(ny, ends, 1, j => x(nx, j));
    BalanceTurns(ColumnSum(ny, x, 0), ColumnSum(ny, x, nx), RowSum(nx, y, 0), RowSum(nx, y, ny), GridSum(nx, ny, c),
                 dx, dy, k);
    hide RowSum;
  }

  lemma BalanceTurns(xw: real, xe: real, ys: real, yn: real, c: real, dx: real, dy: real, k: real)
    requires dx != 0.0 && dy != 0.0
    ensures Balance(xw, xe, ys, yn, c, dx, dy, k) == Balance(ys, yn, xw, xe, c, dy, dx, k)
  {
    hide Quotient;
    hide Times;
  }

  lemma AsSum(n: nat, e: (int, int) -> real, l: int, f: int -> real)
    requires forall j :: 0 <= j < n ==> e(j, l) == f(j)
    ensures RowSum(n, e, l) == Sum(n, f)
  {
    SumExt(n, j => e(j, l), f);
  }

  /** Where opposite edges carry the same flux, every flux difference cancels in the grid sum. */
  lemma DivergenceTelescopes(nx: nat, ny: nat, x: (int, int) -> real, y: (int, int) -> real, c: (int, int) -> real,
                             e: (int, int) -> real, dx: real, dy: real, k: real)
    requires dx != 0.0 && dy != 0.0
    requires EdgesMatch(nx, ny, x, y) && Balances(nx, ny, x, y, c, e, dx, dy, k)
    ensures GridSum(nx, ny, e) == -Times(k, GridSum(nx, ny, c))
  {
    RectangleBalance(nx, ny, x, y, c, e, dx, dy, k);
    SumExt(nx, i => y(i, 0), i => y(i, ny));
    SumExt(ny, j => x(0, j), j => x(nx, j));
    hide GridSum;
    QuotientAdds(0.0, 0.0, dx);
    QuotientAdds(0.0, 0.0, dy);
  }

  // ----- Maxima -----

  /** The largest of `base` and f(0), ..., f(n-1). */
  function Largest(n: nat, f: int -> real, base: real): real {
    if n == 0 then base else Max(Largest(n - 1, f, base), f(n - 1))
  }

  lemma LargestNone(f: int -> real, base: real)
    ensures Largest(0, f, base) == base
  {
  }

  lemma LargestNext(n: nat, f: int -> real, base: real)
    ensures Largest(n + 1, f, base) == Max(Largest(n, f, base), f(n))
  {
  }

  lemma {:induction false} LargestBounds(n: nat, f: int -> real, base: real)
    ensures base <= Largest(n, f, base)
    ensures forall k :: 0 <= k < n ==> f(k) <= Largest(n, f, base)
    ensures Largest(n, f, base) == base || exists k :: 0 <= k < n && f(k) == Largest(n, f, base)
  {
    if n != 0 { LargestBounds(n - 1, f, base); }
  }

  lemma {:induction false} LargestExt(n: nat, f: int -> real, g: int -> real, base: real)
    requires forall k :: 0 <= k < n ==> f(k) == g(k)
    ensures Largest(n, f, base) == Largest(n, g, base)
  {
    if n != 0 { LargestExt(n - 1, f, g, base); }
  }

  function RowLargest(nx: nat, e: (int, int) -> real, j: int, base: real): real {
    Largest(nx, i => e(i, j), base)
  }

  function GridLargest(nx: nat, ny: nat, e: (int, int) -> real, base: real): real {
    Largest(ny, j => RowLargest(nx, e, j, base), base)
  }

  lemma RowLargestGrows(m: nat, j: int, e: (int, int) -> real, base: real)
    ensures RowLargest(m + 1, e, j, base) == Max(RowLargest(m, e, j, base), e(m, j))
  {
    LargestExt(m, i => e(i, j), i => e(i, j), base);
  }

  lemma GridLargestGrows(nx: nat, m: nat, e: (int, int) -> real, base: real)
    ensures GridLargest(nx, m + 1, e, base) == Max(GridLargest(nx, m, e, base), RowLargest(nx, e, m, base))
  {
    hide RowLargest;
    LargestExt(m, j => RowLargest(nx, e, j, base), j => RowLargest(nx, e, j, base), base);
  }

  lemma GridSumGrows(nx: nat, m: nat, e: (int, int) -> real)
    ensures GridSum(nx, m + 1, e) == GridSum(nx, m, e) + RowSum(nx, e, m)
  {
    hide RowSum;
    SumExt(m, j => RowSum(nx, e, j), j => RowSum(nx, e, j));
  }

  /** `m` is the largest of `base` and the grid's values. */
  ghost predicate IsGridLargest(m: real, nx: nat, ny: nat, e: (int, int) -> real, base: real) {
    && base <= m
    && (forall i, j :: 0 <= i < nx && 0 <= j < ny ==> e(i, j) <= m)
    && (m == base || exists i, j :: 0 <= i < nx && 0 <= j < ny && e(i, j) == m)
  }

  lemma GridLargestIs(nx: nat, ny: nat, e: (int, int) -> real, base: real)
    ensures IsGridLargest(GridLargest(nx, ny, e, base), nx, ny, e, base)
  {
    var rows := j => RowLargest(nx, e, j, base);
    LargestBounds(ny, rows, base);
    var m := GridLargest(nx, ny, e, base);
    forall i, j | 0 <= i < nx && 0 <= j < ny ensures e(i, j) <= m {
      var row := i => e(i, j);
      LargestBounds(nx, row, base);
      assert row(i) <= rows(j) <= m;
    }
    if m != base {
      var j :| 0 <= j < ny && rows(j) == m;
      var row := i => e(i, j);
      LargestBounds(nx, row, base);
      var i :| 0 <= i < nx && row(i) == m;
      assert e(i, j) == m;
    }
  }

  lemma LargestUnique(m: real, m': real, nx: nat, ny: nat, e: (int, int) -> real, base: real)
    requires IsGridLargest(m, nx, ny, e, base) && IsGridLargest(m', nx, ny, e, base)
    ensures m == m'
  {
  }

  // ----- Constant and bounded terms -----

  lemma {:induction false} SumConstant(n: nat, c: real, f: int -> real)
    requires forall k :: 0 <= k < n ==> f(k) == c
    ensures Sum(n, f) == Times(n as real, c)
  {
    if n != 0 {
      SumConstant(n - 1, c, f);
      OneMore(n - 1, c);
      hide Times;
    } else {
      TimesAdds(0.0, c, 0.0);
    }
  }

  lemma OneMore(n: nat, c: real)
    ensures Times((n + 1) as real, c) == Times(n as real, c) + c
  {
  }

  lemma GridSumConstant(nx: nat, ny: nat, c: real, e: (int, int) -> real)
    requires forall i, j :: 0 <= i < nx && 0 <= j < ny ==> e(i, j) == c
    ensures GridSum(nx, ny, e) == Times(ny as real, Times(nx as real, c))
  {
    forall j | 0 <= j < ny ensures RowSum(nx, e, j) == Times(nx as real, c) {
      SumConstant(nx, c, i => e(i, j));
    }
    SumConstant(ny, Times(nx as real, c), j => RowSum(nx, e, j));
    hide Times;
  }

  lemma {:induction false} SumAtLeast(n: nat, f: int -> real, i: int)
    requires (forall k :: 0 <= k < n ==> 0.0 <= f(k)) && 0 <= i < n
    ensures 0.0 <= f(i) <= Sum(n, f)
  {
    if i == n - 1 {
      SumNonNegative(n - 1, f);
    } else {
      SumAtLeast(n - 1, f, i);
    }
  }

  lemma {:induction false} SumNonNegative(n: nat, f: int -> real)
    requires forall k :: 0 <= k < n ==> 0.0 <= f(k)
    ensures 0.0 <= Sum(n, f)
  {
    if n != 0 { SumNonNegative(n - 1, f); }
  }

  /** No term of a sum of non-negative ones exceeds it. */
  lemma GridSumAtLeast(nx: nat, ny: nat, e: (int, int) -> real, i: int, j: int)
    requires (forall a, b :: 0 <= a < nx && 0 <= b < ny ==> 0.0 <= e(a, b)) && 0 <= i < nx && 0 <= j < ny
    ensures 0.0 <= e(i, j) <= GridSum(nx, ny, e)
  {
    forall b | 0 <= b < ny ensures 0.0 <= RowSum(nx, e, b) {
      SumNonNegative(nx, a => e(a, b));
    }
    SumAtLeast(nx, a => e(a, j), i);
    SumAtLeast(ny, b => RowSum(nx, e, b), j);
  }
}
