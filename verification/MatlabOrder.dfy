/** Reading a row-major array into column-major Matlab: reversing dimensions, 1-based and negative
    selections, all in the binding's machine types. */
module MatlabOrder {
  import opened MachineWords

  // ----- Reversal in place, through a temporary of type int -----

  /** A 64-bit unsigned value after a trip through a 32-bit int. */
  function ThroughInt(x: int): int {
    var low := x % TWO32;
    if low < TWO31 then low else low - TWO32 + TWO64
  }

  predicate FitsInt(x: int) {
    x < TWO31 || TWO64 - TWO31 <= x
  }

  predicate IsSize(x: int) {
    0 <= x < TWO64
  }

  lemma ThroughIntKeeps(x: int)
    requires IsSize(x)
    ensures ThroughInt(x) == x <==> FitsInt(x)
    ensures IsSize(ThroughInt(x))
    ensures ThroughInt(ThroughInt(x)) == ThroughInt(x)
    ensures FitsInt(ThroughInt(x)) && ThroughInt(x) % TWO32 == x % TWO32
  {
  }

  function Reversed(s: seq<int>): (r: seq<int>)
    ensures |r| == |s|
    ensures forall k :: 0 <= k < |s| ==> r[k] == s[|s| - 1 - k]
  {
    seq(|s|, k requires 0 <= k < |s| => s[|s| - 1 - k])
  }

  /** The result of `swap_order`: the entries of the first half go through the temporary. */
  function Swapped(s: seq<int>): (r: seq<int>)
    ensures |r| == |s|
  {
    var n := |s|;
    seq(n, k requires 0 <= k < n =>
      if k < n / 2 then s[n - 1 - k] else if n - n / 2 <= k then ThroughInt(s[n - 1 - k]) else s[k])
  }

  method SwapOrder(a: array<int>)
    modifies a
    ensures a[..] == Swapped(old(a[..]))
  {
    hide ThroughInt;
    var n := a.Length;
    ghost var s := a[..];
    for i := 0 to n / 2
      invariant forall k :: 0 <= k < i ==> a[k] == s[n - 1 - k] && a[n - 1 - k] == ThroughInt(s[k])
      invariant forall k :: i <= k < n - i ==> a[k] == s[k]
    {
      var tmp := ThroughInt(a[i]);
      a[i] := a[n - 1 - i];
      a[n - 1 - i] := tmp;
    }
    assert forall k :: n - n / 2 <= k < n ==> a[k] == a[n - 1 - (n - 1 - k)];
  }

  /** The first half of the entries survives the temporary. */
  ghost predicate FirstHalfFits(s: seq<int>) {
    forall k :: 0 <= k < |s| / 2 ==> FitsInt(s[k])
  }

  /** In-place reversal reverses exactly when the first half fits an int. */
  lemma SwappedIsReversed(s: seq<int>)
    requires forall k :: 0 <= k < |s| ==> IsSize(s[k])
    ensures Swapped(s) == Reversed(s) <==> FirstHalfFits(s)
  {
    hide FitsInt;
    var n := |s|;
    forall k | 0 <= k < n ensures ThroughInt(s[k]) == s[k] <==> FitsInt(s[k]) { ThroughIntKeeps(s[k]); }
    hide ThroughInt;
    if Swapped(s) == Reversed(s) {
      forall k | 0 <= k < n / 2 ensures FitsInt(s[k]) {
        assert Swapped(s)[n - 1 - k] == Reversed(s)[n - 1 - k];
      }
    }
  }

  /** Reversing twice gives everything back exactly when every entry but the middle one fits. */
  lemma SwapInvolution(s: seq<int>)
    requires forall k :: 0 <= k < |s| ==> IsSize(s[k])
    ensures Swapped(Swapped(s)) == s <==> forall k :: 0 <= k < |s| && 2 * k + 1 != |s| ==> FitsInt(s[k])
  {
    hide FitsInt;
    var n, t := |s|, Swapped(Swapped(s));
    forall k | 0 <= k < n ensures ThroughInt(s[k]) == s[k] <==> FitsInt(s[k]) { ThroughIntKeeps(s[k]); }
    hide ThroughInt;
    forall k | 0 <= k < n ensures t[k] == if 2 * k + 1 != n then ThroughInt(s[k]) else s[k] {
      if k < n / 2 {
        assert t[k] == Swapped(s)[n - 1 - k];
      } else if n - n / 2 <= k {
        assert t[k] == ThroughInt(Swapped(s)[n - 1 - k]);
      }
    }
    if t == s {
      forall k | 0 <= k < n && 2 * k + 1 != n ensures FitsInt(s[k]) {
        assert t[k] == s[k];
      }
    }
  }

  // ----- Linear addresses -----

  function RowMajor(dims: seq<int>, x: seq<int>): int
    requires |dims| == |x|
  {
    var n := |dims|;
    if n == 0 then 0 else RowMajor(dims[..n - 1], x[..n - 1]) * dims[n - 1] + x[n - 1]
  }

  function ColumnMajor(dims: seq<int>, x: seq<int>): int
    requires |dims| == |x|
  {
    if dims == [] then 0 else x[0] + dims[0] * ColumnMajor(dims[1..], x[1..])
  }

  /** Reversing dimensions and index turns the column-major address into the row-major one. */
  lemma {:induction false} FlipPreservesAddress(dims: seq<int>, x: seq<int>)
    requires |dims| == |x|
    ensures RowMajor(Reversed(dims), Reversed(x)) == ColumnMajor(dims, x)
  {
    var n := |dims|;
    if n != 0 {
      FlipPreservesAddress(dims[1..], x[1..]);
      assert Reversed(dims)[..n - 1] == Reversed(dims[1..]);
      assert Reversed(x)[..n - 1] == Reversed(x[1..]);
    }
  }

  // ----- Selections -----

  /** 0-based start from a 1-based or negative Matlab start, in size_t arithmetic. */
  function StartOf(dim: int, start: int): int {
    if start < 0 then (dim + start) % TWO64 else (start - 1) % TWO64
  }

  function CountOf(dim: int, offset: int, count: int): int {
    if count < 0 then (dim + count - offset + 1) % TWO64 else count % TWO64
  }

  predicate IsInt64(x: int) {
    -TWO63 <= x < TWO63
  }

  /** A selection Matlab may ask for along a dimension of length `dim`: 1..dim or -dim..-1 for the
      start, and a count that stays inside, a negative one counting back from the end. */
  predicate ValidSelection(dim: int, start: int, count: int) {
    var first := if start < 0 then dim + start + 1 else start;
    var length := if count < 0 then dim - first + 1 + count + 1 else count;
    1 <= first <= dim && 0 <= length && first + length - 1 <= dim
  }

  predicate InRange(dim: int, offset: int, count: int) {
    0 <= offset < dim && 0 <= count && offset + count <= dim
  }

  /** Exactly the valid selections come out as 0-based ranges inside the dimension; no invalid one
      wraps around into range. */
  lemma SelectionInRangeIffValid(dim: int, start: int, count: int)
    requires 0 <= dim < TWO63 && IsInt64(start) && IsInt64(count)
    ensures InRange(dim, StartOf(dim, start), CountOf(dim, StartOf(dim, start), count)) <==>
        ValidSelection(dim, start, count)
    ensures ValidSelection(dim, start, count) ==>
              var first := if start < 0 then dim + start + 1 else start;
              && StartOf(dim, start) == first - 1
              && CountOf(dim, StartOf(dim, start), count) == (if count < 0 then dim - first + 1 + count + 1 else count)
  {
  }

  function StartAt(dims: seq<int>, starts: seq<int>, i: int): int
    requires 0 <= i < |dims|
  {
    if i < |starts| then StartOf(dims[i], starts[i]) else 0
  }

  function CountAt(dims: seq<int>, starts: seq<int>, counts: seq<int>, i: int): int
    requires 0 <= i < |dims| && |counts| == |starts|
  {
    if i < |starts| then CountOf(dims[i], StartOf(dims[i], starts[i]), counts[i]) else dims[i]
  }

  /** Fills in the selection of every dimension; missing trailing ones are read whole. */
  method RecalcOffsets(dims: seq<int>, starts: seq<int>, lengths: seq<int>, offsets: array<int>, counts: array<int>)
    requires |starts| == |lengths| && offsets.Length == counts.Length == |dims| && offsets != counts
    modifies offsets, counts
    ensures forall i :: 0 <= i < |dims| ==>
        offsets[i] == StartAt(dims, starts, i) && counts[i] == CountAt(dims, starts, lengths, i)
  {
    for i := 0 to |dims|
      invariant forall k :: 0 <= k < i ==>
          offsets[k] == StartAt(dims, starts, k) && counts[k] == CountAt(dims, starts, lengths, k)
    {
      if i < |starts| {
        if starts[i] < 0 {
          offsets[i] := (dims[i] + starts[i]) % TWO64;
        } else {
          offsets[i] := (starts[i] - 1) % TWO64;
        }
        if lengths[i] < 0 {
          counts[i] := (dims[i] + lengths[i] - offsets[i] + 1) % TWO64;
        } else {
          counts[i] := lengths[i] % TWO64;
        }
      } else {
        offsets[i] := 0;
        counts[i] := dims[i];
      }
    }
  }

  /** Selects steps by the rule for dimensions: exactly the valid requests land in the step range. */
  method RecalcSteps(stepCount: int, inStart: int, inCount: int) returns (start: int, count: int)
    ensures start == StartOf(stepCount, inStart) && count == CountOf(stepCount, start, inCount)
    ensures 0 <= stepCount < TWO63 && IsInt64(inStart) && IsInt64(inCount) ==>
              (InRange(stepCount, start, count) <==> ValidSelection(stepCount, inStart, inCount))
  {
    if 0 <= stepCount < TWO63 && IsInt64(inStart) && IsInt64(inCount) {
      SelectionInRangeIffValid(stepCount, inStart, inCount);
    }
    if inStart < 0 {
      start := (stepCount + inStart) % TWO64;
    } else {
      start := (inStart - 1) % TWO64;
    }
    if inCount < 0 {
      count := (stepCount + inCount + 1 - start) % TWO64;
    } else {
      count := inCount % TWO64;
    }
  }

  /** Every requested dimension is validly selected, in Matlab's (reversed) order. */
  ghost predicate ValidRequest(dims: seq<int>, starts: seq<int>, lengths: seq<int>) {
    |starts| == |lengths| <= |dims| && forall i :: 0 <= i < |starts| ==>
      ValidSelection(Reversed(dims)[i], starts[i], lengths[i]) && IsInt64(starts[i]) && IsInt64(lengths[i])
  }

  // What the library is asked for. Matlab index i is the library's index n - 1 - i.

  /** The selection handed over is the Matlab selection, reversed. */
  ghost predicate Delivered(dims: seq<int>, starts: seq<int>, lengths: seq<int>, os: seq<int>, cs: seq<int>)
    requires |starts| == |lengths|
  {
    |os| == |cs| == |dims| && forall i :: 0 <= i < |dims| ==> DeliveredAt(Reversed(dims), starts, lengths, os, cs, i)
  }

  predicate DeliveredAt(r: seq<int>, starts: seq<int>, lengths: seq<int>, os: seq<int>, cs: seq<int>, i: int)
    requires |starts| == |lengths| && |os| == |cs| == |r| && 0 <= i < |r|
  {
    os[|r| - 1 - i] == StartAt(r, starts, i) && cs[|r| - 1 - i] == CountAt(r, starts, lengths, i)
  }

  /** The request gets through the two swaps. On the first half of Matlab's dimensions the selection
      itself passes through an int; on the second half the dimension does, which does not matter if
      the selection is not counted from its end. */
  ghost predicate GetsThrough(dims: seq<int>, starts: seq<int>, lengths: seq<int>)
    requires |starts| == |lengths|
  {
    forall i :: 0 <= i < |dims| ==> GetsThroughAt(Reversed(dims), starts, lengths, i)
  }

  predicate GetsThroughAt(r: seq<int>, starts: seq<int>, lengths: seq<int>, i: int)
    requires |starts| == |lengths| && 0 <= i < |r|
  {
    var n := |r|;
    if i < n / 2 then
      FitsInt(StartAt(r, starts, i)) && FitsInt(CountAt(r, starts, lengths, i))
    else if n - n / 2 <= i then
      FitsInt(r[i]) || (i < |starts| && 0 <= starts[i] && 0 <= lengths[i])
    else true
  }

  lemma ModInjective(a: int, b: int, k: int)
    requires IsSize(a) && IsSize(b) && (a + k) % TWO64 == (b + k) % TWO64
    ensures a == b
  {
  }

  /** A dimension that changed shows in the selection unless that is counted from the front. */
  lemma DimensionShows(r: seq<int>, t: seq<int>, starts: seq<int>, lengths: seq<int>, i: int)
    requires |starts| == |lengths| && 0 <= i < |r| == |t| && IsSize(r[i]) && IsSize(t[i]) && r[i] != t[i]
    ensures StartAt(t, starts, i) == StartAt(r, starts, i) &&
        CountAt(t, starts, lengths, i) == CountAt(r, starts, lengths, i)
       <==> i < |starts| && 0 <= starts[i] && 0 <= lengths[i]
  {
    if i < |starts| {
      if starts[i] < 0 && (t[i] + starts[i]) % TWO64 == (r[i] + starts[i]) % TWO64 {
        ModInjective(t[i], r[i], starts[i]);
      }
      var k := lengths[i] - StartAt(r, starts, i) + 1;
      if 0 <= starts[i] && lengths[i] < 0 && (t[i] + k) % TWO64 == (r[i] + k) % TWO64 {
        ModInjective(t[i], r[i], k);
      }
    }
  }

  function Starts(dims: seq<int>, starts: seq<int>): (os: seq<int>)
    ensures |os| == |dims| && forall i :: 0 <= i < |dims| ==> os[i] == StartAt(dims, starts, i) && IsSize(os[i])
  {
    seq(|dims|, i requires 0 <= i < |dims| => StartAt(dims, starts, i))
  }

  function Counts(dims: seq<int>, starts: seq<int>, lengths: seq<int>): (cs: seq<int>)
    requires |starts| == |lengths| && forall k :: 0 <= k < |dims| ==> IsSize(dims[k])
    ensures |cs| == |dims|
    ensures forall i :: 0 <= i < |dims| ==> cs[i] == CountAt(dims, starts, lengths, i) && IsSize(cs[i])
  {
    seq(|dims|, i requires 0 <= i < |dims| => CountAt(dims, starts, lengths, i))
  }

  lemma SwappedSizes(s: seq<int>)
    requires forall k :: 0 <= k < |s| ==> IsSize(s[k])
    ensures forall k :: 0 <= k < |s| ==> IsSize(Swapped(s)[k])
  {
    hide ThroughInt;
    forall k | 0 <= k < |s| ensures IsSize(ThroughInt(s[k])) { ThroughIntKeeps(s[k]); }
  }

  /** The selection the library gets is the reversed Matlab selection exactly when the request gets
      through; nothing is assumed of the request. */
  lemma DeliveredIffGetsThrough(dims: seq<int>, starts: seq<int>, lengths: seq<int>)
    requires |starts| == |lengths| && forall k :: 0 <= k < |dims| ==> IsSize(dims[k])
    ensures forall k :: 0 <= k < |dims| ==> IsSize(Swapped(dims)[k])
    ensures var t := Swapped(dims);
            Delivered(dims, starts, lengths, Swapped(Starts(t, starts)), Swapped(Counts(t, starts, lengths)))
            <==> GetsThrough(dims, starts, lengths)
  {
    SwappedSizes(dims);
    var t := Swapped(dims);
    var os, cs := Swapped(Starts(t, starts)), Swapped(Counts(t, starts, lengths));
    forall i | 0 <= i < |dims|
      ensures DeliveredAt(Reversed(dims), starts, lengths, os, cs, i) <==>
          GetsThroughAt(Reversed(dims), starts, lengths, i)
    {
      DeliveredAtIff(dims, starts, lengths, i);
    }
    hide DeliveredAt;
    hide GetsThroughAt;
    hide Swapped;
    hide Starts;
    hide Counts;
  }

  lemma DeliveredAtIff(dims: seq<int>, starts: seq<int>, lengths: seq<int>, i: int)
    requires |starts| == |lengths| && 0 <= i < |dims| && forall k :: 0 <= k < |dims| ==> IsSize(dims[k])
    requires forall k :: 0 <= k < |dims| ==> IsSize(Swapped(dims)[k])
    ensures var t := Swapped(dims);
            DeliveredAt(Reversed(dims), starts, lengths, Swapped(Starts(t, starts)),
                Swapped(Counts(t, starts, lengths)), i)
            <==> GetsThroughAt(Reversed(dims), starts, lengths, i)
  {
    var n, r, t := |dims|, Reversed(dims), Swapped(dims);
    var os, cs := Starts(t, starts), Counts(t, starts, lengths);
    ThroughIntKeeps(os[i]);
    ThroughIntKeeps(cs[i]);
    ThroughIntKeeps(r[i]);
    hide ThroughInt;
    hide FitsInt;
    if i < n / 2 {
      assert t[i] == r[i];
    } else if n - n / 2 <= i {
      assert t[i] == ThroughInt(r[i]);
      if t[i] != r[i] { DimensionShows(r, t, starts, lengths, i); }
    } else {
      assert t[i] == r[i];
    }
  }

  /** Row-major shape 2^31 by 10, read whole: the second swap is too late for the dimension, and the
      library is asked for 2^64 - 2^31 rows. */
  lemma LargeDimensionCorrupts()
    ensures Swapped([TWO31, 10]) != Reversed([TWO31, 10])
    ensures !GetsThrough([TWO31, 10], [], [])
    ensures CountAt(Swapped([TWO31, 10]), [], [], 1) == TWO64 - TWO31
  {
    var dims := [TWO31, 10];
    assert |dims| == 2 && dims[2 - 1 - 1] == TWO31 && ThroughInt(TWO31) == TWO64 - TWO31;
    assert Swapped(dims)[1] == TWO64 - TWO31;
    assert Reversed(dims)[1] == TWO31;
    assert !GetsThroughAt(Reversed(dims), [], [], 1);
  }

  /** A valid request on dimensions that fit an int gets through. */
  lemma SmallDimensionsGetThrough(dims: seq<int>, starts: seq<int>, lengths: seq<int>)
    requires ValidRequest(dims, starts, lengths) && forall k :: 0 <= k < |dims| ==> 0 < dims[k] < TWO31
    ensures GetsThrough(dims, starts, lengths)
  {
    hide ValidSelection;
    hide StartAt;
    hide CountAt;
    forall i | 0 <= i < |dims| ensures GetsThroughAt(Reversed(dims), starts, lengths, i) {
      RangeAt(Reversed(dims), starts, lengths, i);
    }
  }

  lemma RangeAt(r: seq<int>, starts: seq<int>, lengths: seq<int>, i: int)
    requires 0 <= i < |r| && |starts| == |lengths| && 0 < r[i] < TWO63
    requires i < |starts| ==> ValidSelection(r[i], starts[i], lengths[i]) && IsInt64(starts[i]) && IsInt64(lengths[i])
    ensures InRange(r[i], StartAt(r, starts, i), CountAt(r, starts, lengths, i))
  {
    if i < |starts| {
      SelectionInRangeIffValid(r[i], starts[i], lengths[i]);
    }
  }

  /** A valid request that gets through selects inside every dimension of the stored array. */
  lemma DeliveredInRange(dims: seq<int>, starts: seq<int>, lengths: seq<int>, os: seq<int>, cs: seq<int>, k: int)
    requires ValidRequest(dims, starts, lengths) && forall j :: 0 <= j < |dims| ==> 0 < dims[j] < TWO63
    requires Delivered(dims, starts, lengths, os, cs) && 0 <= k < |dims|
    ensures InRange(dims[k], os[k], cs[k])
  {
    hide ValidSelection;
    hide StartAt;
    hide CountAt;
    hide InRange;
    var i := |dims| - 1 - k;
    assert DeliveredAt(Reversed(dims), starts, lengths, os, cs, i);
    RangeAt(Reversed(dims), starts, lengths, i);
  }

  /** From the stored dimensions and the Matlab request to the selection handed to the library and
      the shape of the Matlab array. The selection is the requested one exactly when the request
      gets through; then the Matlab array, read backwards, has the shape of what the library fills
      in, with steps, if there are several, as its slowest dimension. */
  method SelectForRead(dims: seq<int>, stepCount: int, starts: seq<int>, lengths: seq<int>, inStart: int, inCount: int)
    returns (shape: seq<int>, offsets: array<int>, counts: array<int>, firstStep: int, steps: int)
    requires |starts| == |lengths| && forall k :: 0 <= k < |dims| ==> IsSize(dims[k])
    ensures offsets.Length == counts.Length == |dims|
    ensures Delivered(dims, starts, lengths, offsets[..], counts[..]) <==> GetsThrough(dims, starts, lengths)
    ensures firstStep == StartOf(stepCount, inStart) && steps == CountOf(stepCount, firstStep, inCount)
    ensures GetsThrough(dims, starts, lengths) ==>
              Reversed(shape) == (if stepCount > 1 then [steps] else []) + counts[..]
  {
    hide Delivered;
    hide GetsThrough;
    hide StartAt;
    hide CountAt;
    hide Swapped;
    var n := |dims|;
    var mxdims := new int[n](i requires 0 <= i < n => dims[i]);
    assert mxdims[..] == dims;
    SwapOrder(mxdims);
    ghost var t := mxdims[..];
    DeliveredIffGetsThrough(dims, starts, lengths);
    offsets, counts := new int[n], new int[n];
    RecalcOffsets(mxdims[..], starts, lengths, offsets, counts);
    assert offsets[..] == Starts(t, starts) && counts[..] == Counts(t, starts, lengths);
    firstStep, steps := RecalcSteps(stepCount, inStart, inCount);
    shape := counts[..];
    if stepCount > 1 {
      shape := shape + [steps];
    }
    SwapOrder(offsets);
    SwapOrder(counts);
    if GetsThrough(dims, starts, lengths) {
      CountsReverse(dims, starts, lengths);
      assert Reversed(Counts(t, starts, lengths) + [steps]) == [steps] + Reversed(Counts(t, starts, lengths));
    }
  }

  /** The counts of a request that gets through come out of the second swap reversed. */
  lemma CountsReverse(dims: seq<int>, starts: seq<int>, lengths: seq<int>)
    requires |starts| == |lengths| && forall k :: 0 <= k < |dims| ==> IsSize(dims[k])
    requires forall k :: 0 <= k < |dims| ==> IsSize(Swapped(dims)[k])
    requires GetsThrough(dims, starts, lengths)
    ensures var cs := Counts(Swapped(dims), starts, lengths);
            Swapped(cs) == Reversed(cs)
  {
    var n, r, cs := |dims|, Reversed(dims), Counts(Swapped(dims), starts, lengths);
    hide FitsInt;
    forall i | 0 <= i < n / 2 ensures FitsInt(cs[i]) {
      assert GetsThroughAt(r, starts, lengths, i);
      assert Swapped(dims)[i] == r[i];
    }
    SwappedIsReversed(cs);
  }
}
