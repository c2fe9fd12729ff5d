/** Is an HDF5 selection one block? The library compares the number of selected points with the
    volume of their bounding box, in machine arithmetic. */
module BlockSelection {
  import opened MachineWords
  import opened Arithmetic

  type Point = seq<int>

  // ----- Boxes and their volume -----

  predicate InBox(x: Point, s: Point, e: Point) {
    |x| == |s| == |e| && forall k :: 0 <= k < |s| ==> s[k] <= x[k] <= e[k]
  }

  predicate Ordered(s: Point, e: Point) {
    |s| == |e| && forall k :: 0 <= k < |s| ==> s[k] <= e[k]
  }

  /** All points whose first coordinate lies in lo..hi and whose rest lies in `rest`. */
  function Slab(lo: int, hi: int, rest: set<Point>): set<Point> {
    set x, t | lo <= x <= hi && t in rest :: [x] + t
  }

  function Box(s: Point, e: Point): set<Point>
    requires |s| == |e|
  {
    if s == [] then {[]} else Slab(s[0], e[0], Box(s[1..], e[1..]))
  }

  lemma {:induction false} BoxMembers(s: Point, e: Point, x: Point)
    requires |s| == |e|
    ensures x in Box(s, e) <==> InBox(x, s, e)
  {
    if s == [] {
    } else if x == [] {
    } else {
      BoxMembers(s[1..], e[1..], x[1..]);
      assert x == [x[0]] + x[1..];
      if x in Box(s, e) {
        var y, t :| s[0] <= y <= e[0] && t in Box(s[1..], e[1..]) && x == [y] + t;
        assert y == x[0] && t == x[1..];
        assert forall k :: 0 < k < |s| ==> x[k] == x[1..][k - 1] && s[k] == s[1..][k - 1] && e[k] == e[1..][k - 1];
      }
    }
  }

  function Prefixed(x: int, rest: set<Point>): set<Point> {
    set t | t in rest :: [x] + t
  }

  lemma {:induction false} PrefixedSize(x: int, rest: set<Point>)
    ensures |Prefixed(x, rest)| == |rest|
    decreases |rest|
  {
    if rest == {} {
      assert Prefixed(x, rest) == {};
    } else {
      var t :| t in rest;
      var fewer := rest - {t};
      PrefixedSize(x, fewer);
      assert Prefixed(x, rest) == Prefixed(x, fewer) + {[x] + t};
      forall u | u in fewer ensures [x] + u != [x] + t {
        assert ([x] + u)[1..] == u && ([x] + t)[1..] == t;
      }
    }
  }

  lemma {:induction false} SlabSize(lo: int, hi: int, rest: set<Point>)
    requires lo <= hi + 1
    ensures |Slab(lo, hi, rest)| == (hi - lo + 1) * |rest|
    decreases hi - lo + 1
  {
    if lo == hi + 1 {
      assert Slab(lo, hi, rest) == {};
    } else {
      SlabSize(lo, hi - 1, rest);
      PrefixedSize(hi, rest);
      var below, last := Slab(lo, hi - 1, rest), Prefixed(hi, rest);
      assert Slab(lo, hi, rest) == below + last;
      assert below !! last by {
        forall x | x in below ensures x !in last {
          assert x[0] < hi;
        }
      }
      assert (hi - lo + 1) * |rest| == (hi - 1 - lo + 1) * |rest| + |rest|;
    }
  }

  function Counts(s: Point, e: Point): seq<int>
    requires |s| == |e|
  {
    seq(|s|, k requires 0 <= k < |s| => e[k] - s[k] + 1)
  }

  function Volume(counts: seq<int>): int {
    if counts == [] then 1 else counts[0] * Volume(counts[1..])
  }

  /** The number of points of a box is the product of its side lengths. */
  lemma {:induction false} BoxSize(s: Point, e: Point)
    requires Ordered(s, e)
    ensures |Box(s, e)| == Volume(Counts(s, e))
  {
    if s != [] {
      BoxSize(s[1..], e[1..]);
      SlabSize(s[0], e[0], Box(s[1..], e[1..]));
      assert Counts(s, e)[1..] == Counts(s[1..], e[1..]);
    }
  }

  // ----- What the library reports -----

  /** `s` and `e` are the least and greatest coordinates of the selected points. */
  ghost predicate TightBounds(sel: set<Point>, s: Point, e: Point) {
    && |s| == |e| && sel != {}
    && (forall x :: x in sel ==> InBox(x, s, e))
    && (forall k :: 0 <= k < |s| ==> (exists x :: x in sel && x[k] == s[k]) && (exists x :: x in sel && x[k] == e[k]))
  }

  /** The same product in 64-bit unsigned arithmetic. */
  function WrappedVolume(counts: seq<int>, acc: int): int {
    if counts == [] then acc else WrappedVolume(counts[1..], (acc * (counts[0] % TWO64)) % TWO64)
  }

  /** Conversion of an unsigned 64-bit value to a 32-bit int. */
  function ToInt(n: int): int {
    var low := n % TWO32;
    if low < TWO32 / 2 then low else low - TWO32
  }

  /** The one 32-bit value congruent to it. */
  lemma ToIntIs(n: int)
    ensures -(TWO32 / 2) <= ToInt(n) < TWO32 / 2 && ToInt(n) % TWO32 == n % TWO32
  {
  }

  function BlockInfo(npts: int, s: Point, e: Point): int
    requires |s| == |e|
  {
    if npts == 0 then ToInt(npts)
    else if npts == WrappedVolume(Counts(s, e), 1) then ToInt(npts)
    else 0
  }

  lemma {:induction false} WrappedIsModulo(counts: seq<int>, acc: int)
    ensures WrappedVolume(counts, acc) % TWO64 == (acc * Volume(counts)) % TWO64
    ensures 0 <= acc < TWO64 ==> 0 <= WrappedVolume(counts, acc) < TWO64
    decreases |counts|
  {
    if counts != [] {
      var c, rest := counts[0], counts[1..];
      var next := (acc * (c % TWO64)) % TWO64;
      WrappedIsModulo(rest, next);
      WrapOnce(acc, c, Volume(rest), TWO64);
    }
  }

  lemma WrapOnce(acc: int, c: int, v: int, m: int)
    requires 0 < m
    ensures (((acc * (c % m)) % m) * v) % m == (acc * (c * v)) % m
  {
    ModTimes(acc, c, m);
    ModTimes(acc * c, v, m);
    assert (acc * c) * v == acc * (c * v);
  }

  /** Fills `start` and `count` and compares the product of the counts with the point count. */
  method GetBlockInfo(npts: int, s: seq<int>, e: seq<int>, start: array<int>, count: array<int>) returns (r: int)
    requires |s| == |e| == start.Length == count.Length && start != count
    requires forall k :: 0 <= k < |s| ==> 0 <= s[k] <= e[k] < TWO64
    modifies start, count
    ensures r == BlockInfo(npts, s, e)
    ensures npts == 0 ==> start[..] == old(start[..]) && count[..] == old(count[..])
    ensures npts != 0 ==> start[..] == s && forall k :: 0 <= k < |s| ==> count[k] == (e[k] - s[k] + 1) % TWO64
  {
    if npts == 0 {
      return ToInt(npts);
    }
    var numElements := 1;
    for k := 0 to |s|
      invariant start[..k] == s[..k]
      invariant forall i :: 0 <= i < k ==> count[i] == (e[i] - s[i] + 1) % TWO64
      invariant WrappedVolume(Counts(s, e), 1) == WrappedVolume(Counts(s, e)[k..], numElements)
    {
      start[k] := s[k];
      count[k] := (e[k] - s[k] + 1) % TWO64;
      numElements := (numElements * count[k]) % TWO64;
      assert Counts(s, e)[k..][1..] == Counts(s, e)[k + 1..];
    }
    assert start[..] == s;
    if npts == numElements {
      return ToInt(npts);
    }
    return 0;
  }

  // ----- When the answer is right -----

  /** The report says block exactly when the selection is its whole bounding box. */
  ghost predicate Exact(sel: set<Point>, s: Point, e: Point)
    requires |s| == |e|
  {
    BlockInfo(|sel|, s, e) != 0 <==> sel == Box(s, e)
  }

  lemma FullIffVolume(sel: set<Point>, s: Point, e: Point)
    requires TightBounds(sel, s, e)
    ensures 0 < |sel| <= Volume(Counts(s, e))
    ensures sel == Box(s, e) <==> |sel| == Volume(Counts(s, e))
  {
    var some :| some in sel;
    assert InBox(some, s, e);
    assert Ordered(s, e);
    BoxSize(s, e);
    var box := Box(s, e);
    forall x | x in sel ensures x in box { BoxMembers(s, e, x); }
    assert box == sel + (box - sel);
    assert |box| == |sel| + |box - sel|;
    hide InBox;
    hide Volume;
    hide Box;
    if |box - sel| == 0 { assert box - sel == {}; }
  }

  /** The answer is right exactly when neither 64-bit overflow of the box volume lands on the point
      count nor truncation to int turns a full block's count into zero. */
  lemma BlockDetectionExact(sel: set<Point>, s: Point, e: Point)
    requires TightBounds(sel, s, e) && |sel| < TWO64
    ensures var v := Volume(Counts(s, e));
            Exact(sel, s, e) <==>
            !(TWO64 <= v && v % TWO64 == |sel| && |sel| % TWO32 != 0) && !(v == |sel| && |sel| % TWO32 == 0)
  {
    hide Volume;
    hide Counts;
    hide Box;
    hide WrappedVolume;
    FullIffVolume(sel, s, e);
    WrappedIsModulo(Counts(s, e), 1);
  }

  /** In particular it is right for every selection of fewer than 2^31 points whose bounding box
      has fewer than 2^64 cells. */
  lemma BlockDetectionRight(sel: set<Point>, s: Point, e: Point)
    requires TightBounds(sel, s, e) && |sel| < TWO32 / 2 && Volume(Counts(s, e)) < TWO64
    ensures BlockInfo(|sel|, s, e) != 0 <==> sel == Box(s, e)
    ensures sel == Box(s, e) ==> BlockInfo(|sel|, s, e) == |sel|
  {
    hide Volume;
    hide Counts;
    hide Box;
    hide WrappedVolume;
    BlockDetectionExact(sel, s, e);
    FullIffVolume(sel, s, e);
    WrappedIsModulo(Counts(s, e), 1);
  }

  /** Two points at the corners of a 2 by 2^63+1 box pass for a block of two. */
  lemma OverflowFoolsDetection() returns (sel: set<Point>, s: Point, e: Point)
    ensures TightBounds(sel, s, e) && |sel| == 2 && BlockInfo(2, s, e) == 2 && sel != Box(s, e)
  {
    var a, b: Point := [0, 0], [1, 0x8000_0000_0000_0000];
    sel, s, e := {a, b}, a, b;
    assert a[0] == s[0] && a[1] == s[1] && b[0] == e[0] && b[1] == e[1];
    assert a in sel && b in sel;
    assert a != b by { assert a[0] != b[0]; }
    var c := Counts(s, e);
    assert c == [2, 0x8000_0000_0000_0001];
    assert c[1..] == [0x8000_0000_0000_0001] && c[1..][1..] == [];
    assert WrappedVolume(c, 1) == WrappedVolume(c[1..], 2) == WrappedVolume(c[1..][1..], 2) == 2;
    BoxMembers(s, e, [0, 1]);
    assert InBox([0, 1], s, e);
  }

  /** A full line of 2^32 points is a block, and is reported as none: its count truncates to zero. */
  lemma TruncationHidesBlock() returns (sel: set<Point>, s: Point, e: Point)
    ensures TightBounds(sel, s, e) && sel == Box(s, e) && |sel| == TWO32 && BlockInfo(|sel|, s, e) == 0
  {
    s, e := [0], [TWO32 - 1];
    sel := Box(s, e);
    BoxSize(s, e);
    assert Counts(s, e) == [TWO32] && [TWO32][1..] == [];
    assert Volume([TWO32]) == TWO32 * Volume([TWO32][1..]);
    forall x ensures x in sel <==> InBox(x, s, e) { BoxMembers(s, e, x); }
    assert s in sel && e in sel;
  }
}
