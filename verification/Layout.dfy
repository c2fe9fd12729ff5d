/** The flat arrays: variable v of cell (i, j) of a w-by-h box lies at (v*h + j)*w + i. The same
    layout serves the fields, the face fluxes and the message buffers, with their own w and h. */
module Layout {
  import opened States
  import opened PeriodicGrid
  import opened MachineWords
  import opened Arithmetic

  function Idx(w: int, h: int, v: int, i: int, j: int): int {
    (v * h + j) * w + i
  }

  predicate InBox(w: int, h: int, v: int, i: int, j: int) {
    0 <= v < NUM_VARS && 0 <= i < w && 0 <= j < h
  }

  predicate Sized(n: int, w: int, h: int) {
    0 <= w && 0 <= h && n == NUM_VARS * h * w
  }

  lemma IdxInRange(n: int, w: int, h: int, v: int, i: int, j: int)
    requires Sized(n, w, h) && InBox(w, h, v, i, j)
    ensures 0 <= Idx(w, h, v, i, j) < n
  {
    LinePosition(h, v, j, NUM_VARS);
    LinePosition(w, v * h + j, i, NUM_VARS * h);
  }

  lemma PlacesNonNegative(n: int, w: int, h: int)
    requires Sized(n, w, h)
    ensures forall v, i, j :: InBox(w, h, v, i, j) ==> 0 <= Idx(w, h, v, i, j)
  {
    hide Sized;
    hide Idx;
    forall v, i, j | InBox(w, h, v, i, j) ensures 0 <= Idx(w, h, v, i, j) {
      IdxInRange(n, w, h, v, i, j);
    }
  }

  /** No two entries of the box share a place. */
  lemma IdxInjective(w: int, h: int, v: int, i: int, j: int, v': int, i': int, j': int)
    requires InBox(w, h, v, i, j) && InBox(w, h, v', i', j') && Idx(w, h, v, i, j) == Idx(w, h, v', i', j')
    ensures v == v' && i == i' && j == j'
  {
    LineUnique(w, v * h + j, i, v' * h + j', i');
    LineUnique(h, v, j, v', j');
  }

  /** Every place of the array belongs to an entry of the box. */
  lemma IdxOnto(n: int, w: int, h: int, k: int) returns (v: int, i: int, j: int)
    requires Sized(n, w, h) && 0 <= k < n && 0 < w && 0 < h
    ensures InBox(w, h, v, i, j) && Idx(w, h, v, i, j) == k
  {
    var line := k / w;
    i := k % w;
    assert line * w + i == k;
    LineBelow(w, line, i, NUM_VARS * h);
    v := line / h;
    j := line % h;
    assert v * h + j == line;
    LineBelow(h, v, j, NUM_VARS);
  }

  /** The index is computed in a 32-bit int: it fits for every entry exactly when the array has at
      most 2^31 places. */
  lemma IdxFitsIff(n: int, w: int, h: int)
    requires Sized(n, w, h) && 0 < w && 0 < h
    ensures (forall v, i, j :: InBox(w, h, v, i, j) ==> 0 <= Idx(w, h, v, i, j) < TWO31) <==> n <= TWO31
  {
    if n <= TWO31 {
      forall v, i, j | InBox(w, h, v, i, j) ensures 0 <= Idx(w, h, v, i, j) < TWO31 {
        IdxInRange(n, w, h, v, i, j);
      }
    } else {
      var v, i, j := IdxOnto(n, w, h, TWO31);
      assert InBox(w, h, v, i, j);
    }
  }

  function VarAt(data: seq<real>, w: int, h: int, v: int, i: int, j: int): real
    requires Sized(|data|, w, h) && InBox(w, h, v, i, j)
  {
    IdxInRange(|data|, w, h, v, i, j);
    data[Idx(w, h, v, i, j)]
  }

  function Cell(data: seq<real>, w: int, h: int, i: int, j: int): State
    requires Sized(|data|, w, h) && 0 <= i < w && 0 <= j < h
  {
    State(VarAt(data, w, h, 0, i, j), VarAt(data, w, h, 1, i, j), VarAt(data, w, h, 2, i, j),
          VarAt(data, w, h, 3, i, j), VarAt(data, w, h, 4, i, j), VarAt(data, w, h, 5, i, j),
          VarAt(data, w, h, 6, i, j), VarAt(data, w, h, 7, i, j), VarAt(data, w, h, 8, i, j))
  }

  lemma CellGet(data: seq<real>, w: int, h: int, i: int, j: int, v: int)
    requires Sized(|data|, w, h) && InBox(w, h, v, i, j)
    ensures Cell(data, w, h, i, j).Get(v) == VarAt(data, w, h, v, i, j)
  {
    hide Idx;
    hide VarAt;
  }

  method NewBox(w: int, h: int) returns (a: array<real>)
    requires 0 <= w && 0 <= h
    ensures fresh(a) && Sized(a.Length, w, h)
    ensures forall k :: 0 <= k < a.Length ==> a[k] == 0.0
  {
    NonNegativeTimes(NUM_VARS * h, w);
    a := new real[NUM_VARS * h * w](_ => 0.0);
  }

  lemma ZerosAreZero(data: seq<real>, w: int, h: int, i: int, j: int)
    requires Sized(|data|, w, h) && 0 <= i < w && 0 <= j < h
    requires forall k :: 0 <= k < |data| ==> data[k] == 0.0
    ensures Cell(data, w, h, i, j) == ZERO
  {
    hide Sized;
    forall v | 0 <= v < NUM_VARS ensures VarAt(data, w, h, v, i, j) == 0.0 {
      IdxInRange(|data|, w, h, v, i, j);
      hide Idx;
    }
    hide VarAt;
    assert forall v :: 0 <= v < NUM_VARS ==> InBox(w, h, v, i, j);
  }

  /** The array's contents as rows of cells. */
  function Snap(data: seq<real>, w: int, h: int): (g: Grid)
    requires Sized(|data|, w, h)
    ensures Shape(g, w, h)
    ensures forall i, j :: 0 <= i < w && 0 <= j < h ==> g[j][i] == Cell(data, w, h, i, j)
  {
    seq(h, j requires 0 <= j < h => seq(w, i requires 0 <= i < w => Cell(data, w, h, i, j)))
  }

  lemma SnapIs(data: seq<real>, w: int, h: int, g: Grid)
    requires Sized(|data|, w, h) && Shape(g, w, h)
    requires forall i, j :: 0 <= i < w && 0 <= j < h ==> g[j][i] == Cell(data, w, h, i, j)
    ensures Snap(data, w, h) == g
  {
    hide Cell;
    SameGrid(Snap(data, w, h), g, w, h);
  }

  /** Two arrays with the same entries have the same rows. */
  lemma SnapByVars(data: seq<real>, w: int, h: int, g: Grid)
    requires Sized(|data|, w, h) && Shape(g, w, h)
    requires forall v, i, j :: InBox(w, h, v, i, j) ==> VarAt(data, w, h, v, i, j) == g[j][i].Get(v)
    ensures Snap(data, w, h) == g
  {
    hide VarAt;
    hide Sized;
    forall i, j | 0 <= i < w && 0 <= j < h ensures g[j][i] == Cell(data, w, h, i, j) {
      forall v | 0 <= v < NUM_VARS ensures g[j][i].Get(v) == Cell(data, w, h, i, j).Get(v) {
        assert InBox(w, h, v, i, j);
        CellGet(data, w, h, i, j, v);
      }
      SameState(g[j][i], Cell(data, w, h, i, j));
    }
    SnapIs(data, w, h, g);
  }

  /** Writing one place of the array changes the entry that lives there and no other. */
  lemma VarUpdated(before: seq<real>, after: seq<real>, w: int, h: int, v: int, i: int, j: int, k: int, x: real)
    requires Sized(|before|, w, h) && InBox(w, h, v, i, j) && k == Idx(w, h, v, i, j)
    requires 0 <= k < |before| && after == before[k := x]
    ensures forall v', i', j' :: InBox(w, h, v', i', j') ==>
              VarAt(after, w, h, v', i', j') ==
                (if v' == v && i' == i && j' == j then x else VarAt(before, w, h, v', i', j'))
  {
    hide Idx;
    hide Sized;
    forall v', i', j' | InBox(w, h, v', i', j')
      ensures VarAt(after, w, h, v', i', j') ==
                if v' == v && i' == i && j' == j then x else VarAt(before, w, h, v', i', j')
    {
      IdxInRange(|before|, w, h, v', i', j');
      if Idx(w, h, v, i, j) == Idx(w, h, v', i', j') {
        IdxInjective(w, h, v, i, j, v', i', j');
      }
    }
  }

  /** One write of `at(u, v, i, j) = x`. */
  method Put(a: array<real>, w: int, h: int, v: int, i: int, j: int, x: real)
    requires Sized(a.Length, w, h) && InBox(w, h, v, i, j)
    modifies a
    ensures forall v', i', j' :: InBox(w, h, v', i', j') ==>
              VarAt(a[..], w, h, v', i', j') ==
                (if v' == v && i' == i && j' == j then x else VarAt(old(a[..]), w, h, v', i', j'))
  {
    hide Sized;
    IdxInRange(a.Length, w, h, v, i, j);
    var k := Idx(w, h, v, i, j);
    hide Idx;
    hide VarAt;
    ghost var before := a[..];
    a[k] := x;
    VarUpdated(before, a[..], w, h, v, i, j, k, x);
  }

  // A message buffer holds its entries in order: variable, row, column.

  lemma IdxNextLine(w: int, h: int, v: int, j: int)
    ensures Idx(w, h, v, w, j) == Idx(w, h, v, 0, j + 1)
  {
    assert (v * h + j + 1) * w == (v * h + j) * w + w;
  }

  lemma IdxNextLayer(w: int, h: int, v: int)
    ensures Idx(w, h, v, 0, h) == Idx(w, h, v + 1, 0, 0)
  {
    assert (v + 1) * h == v * h + h;
  }

  /** `buf` holds rows j0, j0+1, ... of the h-row box `data` in every place before `c`. */
  ghost predicate Packed(buf: seq<real>, k: int, data: seq<real>, w: int, h: int, j0: int, c: int) {
    && Sized(|buf|, w, k) && Sized(|data|, w, h) && 0 <= j0 && j0 + k <= h
    && forall v, i, g :: InBox(w, k, v, i, g) && Idx(w, k, v, i, g) < c ==>
         VarAt(buf, w, k, v, i, g) == VarAt(data, w, h, v, i, j0 + g)
  }

  lemma PackedGrows(before: seq<real>, buf: seq<real>, k: int, data: seq<real>, w: int, h: int, j0: int,
                    v: int, i: int, g: int, c: int)
    requires Packed(before, k, data, w, h, j0, c) && InBox(w, k, v, i, g) && c == Idx(w, k, v, i, g) &&
        0 <= c < |before|
    requires buf == before[c := VarAt(data, w, h, v, i, j0 + g)]
    ensures Packed(buf, k, data, w, h, j0, c + 1)
  {
    hide VarAt;
    hide Sized;
    VarUpdated(before, buf, w, k, v, i, g, c, VarAt(data, w, h, v, i, j0 + g));
    hide Idx;
    forall v', i', g' | InBox(w, k, v', i', g') && Idx(w, k, v', i', g') < c + 1
      ensures VarAt(buf, w, k, v', i', g') == VarAt(data, w, h, v', i', j0 + g')
    {
      if Idx(w, k, v', i', g') == c {
        IdxInjective(w, k, v, i, g, v', i', g');
      }
    }
  }

  lemma PackedAll(buf: seq<real>, k: int, data: seq<real>, w: int, h: int, j0: int)
    requires Packed(buf, k, data, w, h, j0, Idx(w, k, NUM_VARS, 0, 0))
    ensures Snap(buf, w, k) == Snap(data, w, h)[j0..j0 + k]
  {
    hide VarAt;
    var g: Grid := Snap(data, w, h)[j0..j0 + k];
    forall v: int, i: int, j: int | InBox(w, k, v, i, j) ensures VarAt(buf, w, k, v, i, j) == g[j][i].Get(v) {
      IdxInRange(|buf|, w, k, v, i, j);
      CellGet(data, w, h, i, j0 + j, v);
    }
    hide Cell;
    SnapByVars(buf, w, k, g);
  }

  /** `data` is `before` with the entries of `buf` that lie before `c` copied to rows j0, ... . */
  ghost predicate Unpacked(data: seq<real>, before: seq<real>, w: int, h: int, buf: seq<real>, k: int, j0: int,
                           c: int) {
    && Sized(|buf|, w, k) && Sized(|data|, w, h) && |data| == |before| && 0 <= j0 && j0 + k <= h
    && forall v, i, j :: InBox(w, h, v, i, j) ==>
         VarAt(data, w, h, v, i, j) ==
           if j0 <= j < j0 + k && Idx(w, k, v, i, j - j0) < c then VarAt(buf, w, k, v, i, j - j0)
           else VarAt(before, w, h, v, i, j)
  }

  lemma UnpackedGrows(data: seq<real>, data': seq<real>, before: seq<real>, w: int, h: int, buf: seq<real>, k: int,
                      j0: int,
                      v: int, i: int, g: int, c: int)
    requires Unpacked(data, before, w, h, buf, k, j0, c) && InBox(w, k, v, i, g) && c == Idx(w, k, v, i, g) &&
        0 <= c < |buf|
    requires |data'| == |data|
    requires forall v', i', j' :: InBox(w, h, v', i', j') ==>
               VarAt(data', w, h, v', i', j') ==
                 (if v' == v && i' == i && j' == j0 + g then buf[c] else VarAt(data, w, h, v', i', j'))
    ensures Unpacked(data', before, w, h, buf, k, j0, c + 1)
  {
    hide Sized;
    assert buf[c] == VarAt(buf, w, k, v, i, g);
    hide VarAt;
    hide Idx;
    forall v', i', j' | InBox(w, h, v', i', j')
      ensures VarAt(data', w, h, v', i', j') ==
                if j0 <= j' < j0 + k && Idx(w, k, v', i', j' - j0) < c + 1 then VarAt(buf, w, k, v', i', j' - j0)
                else VarAt(before, w, h, v', i', j')
    {
      if j0 <= j' < j0 + k && Idx(w, k, v', i', j' - j0) == c {
        IdxInjective(w, k, v, i, g, v', i', j' - j0);
      }
    }
  }

  /** Rows j0, j0+1, ... of `f` replaced by `m`. */
  function ReplaceRows(f: Grid, j0: int, m: Grid): Grid
    requires 0 <= j0 && j0 + |m| <= |f|
  {
    f[..j0] + m + f[j0 + |m|..]
  }

  lemma UnpackedAll(data: seq<real>, before: seq<real>, w: int, h: int, buf: seq<real>, k: int, j0: int)
    requires Unpacked(data, before, w, h, buf, k, j0, Idx(w, k, NUM_VARS, 0, 0))
    ensures Snap(data, w, h) == ReplaceRows(Snap(before, w, h), j0, Snap(buf, w, k))
  {
    hide VarAt;
    var g: Grid := ReplaceRows(Snap(before, w, h), j0, Snap(buf, w, k));
    forall v: int, i: int, j: int | InBox(w, h, v, i, j) ensures VarAt(data, w, h, v, i, j) == g[j][i].Get(v) {
      if j0 <= j < j0 + k {
        IdxInRange(|buf|, w, k, v, i, j - j0);
        CellGet(buf, w, k, i, j - j0, v);
      } else {
        CellGet(before, w, h, i, j, v);
      }
    }
    hide Cell;
    SnapByVars(data, w, h, g);
  }

  method Fetch(a: array<real>, w: int, h: int, v: int, i: int, j: int) returns (x: real)
    requires Sized(a.Length, w, h) && InBox(w, h, v, i, j)
    ensures x == VarAt(a[..], w, h, v, i, j)
  {
    hide Sized;
    IdxInRange(a.Length, w, h, v, i, j);
    x := a[Idx(w, h, v, i, j)];
  }

  method LoadState(a: array<real>, w: int, h: int, i: int, j: int) returns (s: State)
    requires Sized(a.Length, w, h) && 0 <= i < w && 0 <= j < h
    ensures s == Cell(a[..], w, h, i, j)
  {
    hide VarAt;
    hide Sized;
    var rho := Fetch(a, w, h, 0, i, j);
    var mX := Fetch(a, w, h, 1, i, j);
    var mY := Fetch(a, w, h, 2, i, j);
    var mZ := Fetch(a, w, h, 3, i, j);
    var bX := Fetch(a, w, h, 4, i, j);
    var bY := Fetch(a, w, h, 5, i, j);
    var bZ := Fetch(a, w, h, 6, i, j);
    var e := Fetch(a, w, h, 7, i, j);
    var psi := Fetch(a, w, h, 8, i, j);
    s := State(rho, mX, mY, mZ, bX, bY, bZ, e, psi);
  }

  /** Writes the nine variables of one cell and nothing else. */
  method StoreState(a: array<real>, w: int, h: int, i: int, j: int, s: State)
    requires Sized(a.Length, w, h) && 0 <= i < w && 0 <= j < h
    modifies a
    ensures forall i', j' :: 0 <= i' < w && 0 <= j' < h ==>
              Cell(a[..], w, h, i', j') == if i' == i && j' == j then s else Cell(old(a[..]), w, h, i', j')
  {
    hide VarAt;
    hide Sized;
    ghost var before := a[..];
    for v := 0 to NUM_VARS
      invariant forall v', i', j' :: InBox(w, h, v', i', j') ==>
                  VarAt(a[..], w, h, v', i', j') ==
                    (if v' < v && i' == i && j' == j then s.Get(v') else VarAt(before, w, h, v', i', j'))
    {
      Put(a, w, h, v, i, j, s.Get(v));
    }
    forall i', j' | 0 <= i' < w && 0 <= j' < h
      ensures Cell(a[..], w, h, i', j') == if i' == i && j' == j then s else Cell(before, w, h, i', j')
    {
      assert forall v' :: 0 <= v' < NUM_VARS ==> InBox(w, h, v', i', j');
    }
  }
}
