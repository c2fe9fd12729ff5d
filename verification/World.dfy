/** The solver objects of all ranks, driven in lockstep: what the message-passing program does. */
module World {
  import opened States
  import opened PeriodicGrid
  import opened RankField
  import opened RowSplit
  import opened Sums
  import opened Layout
  import opened Cluster
  import opened Mhd2d
  import opened Positivity
  import opened Reductions

  class World {
    const p: Params
    const ranks: seq<MHD2D>

    constructor (p: Params, ranks: seq<MHD2D>)
      ensures this.p == p && this.ranks == ranks
    {
      this.p := p;
      this.ranks := ranks;
    }

    /** All ranks of a run of n processes. */
    static method Launch(p: Params, n: int) returns (world: World)
      requires 1 <= n <= p.ny
      ensures world.Valid() && world.p == p && |world.ranks| == n
    {
      hide BlockSize;
      hide BlockStart;
      hide Sized;
      var ranks: seq<MHD2D> := [];
      for r := 0 to n
        invariant |ranks| == r
        invariant forall k :: 0 <= k < r ==>
                    ranks[k].Valid() && ranks[k].p == p && ranks[k].rank == k && ranks[k].size == n &&
                        ranks[k].rows == Rows(p, n, k)
        invariant forall k, a :: 0 <= k < r && a in ranks[k].Arrays() ==> allocated(a)
        invariant forall k, l :: 0 <= k < l < r ==> ranks[k].Arrays() !! ranks[l].Arrays()
      {
        var m := new MHD2D(p, r, n);
        ranks := ranks + [m];
      }
      world := new World(p, ranks);
      assert forall r :: 0 <= r < n ==> world.RankValid(r);
    }

    /** The array of rank r an exchange works on. */
    function Target(onStage: bool, r: int): array<real>
      requires 0 <= r < |ranks|
    {
      if onStage then ranks[r].stage else ranks[r].u
    }

    ghost predicate Valid() {
      && 1 <= |ranks| <= p.ny
      && (forall r :: 0 <= r < |ranks| ==> RankValid(r))
      && (forall r, s :: 0 <= r < s < |ranks| ==> ranks[r].Arrays() !! ranks[s].Arrays())
    }

    ghost predicate RankValid(r: int)
      requires 0 <= r < |ranks| <= p.ny
    {
      && ranks[r].Valid() && ranks[r].p == p && ranks[r].rank == r && ranks[r].size == |ranks|
      && ranks[r].rows == Rows(p, |ranks|, r)
    }

    ghost function Targets(onStage: bool): set<object> {
      set r | 0 <= r < |ranks| :: Target(onStage, r)
    }

    ghost function RhsArrays(): set<object> {
      set r | 0 <= r < |ranks| :: ranks[r].rhs
    }

    ghost function RhsStageArrays(): set<object> {
      set r | 0 <= r < |ranks| :: ranks[r].rhsStage
    }

    /** Rank r's field in one of its arrays. */
    ghost function FieldOf(onStage: bool, r: int): (f: Field)
      requires 0 <= r < |ranks| <= p.ny && RankValid(r)
      reads Target(onStage, r)
      ensures IsField(p, Rows(p, |ranks|, r), f)
    {
      hide Snap;
      hide Sized;
      hide BlockSize;
      hide BlockStart;
      ranks[r].View(Target(onStage, r))
    }

    ghost function Fields(onStage: bool): (fs: seq<Field>)
      requires Valid()
      reads Targets(onStage)
      ensures IsCluster(p, fs) && |fs| == |ranks|
      ensures forall r :: 0 <= r < |ranks| ==> RankValid(r) && fs[r] == FieldOf(onStage, r)
    {
      hide BlockSize;
      hide BlockStart;
      seq(|ranks|, r requires 0 <= r < |ranks| && RankValid(r) reads Targets(onStage) => FieldOf(onStage, r))
    }

    lemma TargetsDistinct(onStage: bool, r: int, k: int)
      requires Valid() && 0 <= r < |ranks| && 0 <= k < |ranks| && r != k
      ensures Target(onStage, r) != Target(onStage, k)
    {
      RanksApart(r, k);
      assert Target(onStage, r) in ranks[r].Arrays() && Target(onStage, k) in ranks[k].Arrays();
    }

    lemma RanksApart(r: int, k: int)
      requires Valid() && 0 <= r < |ranks| && 0 <= k < |ranks| && r != k
      ensures ranks[r].Arrays() !! ranks[k].Arrays()
    {
      if r < k {
        assert ranks[r].Arrays() !! ranks[k].Arrays();
      } else {
        assert ranks[k].Arrays() !! ranks[r].Arrays();
      }
    }

    method PackOne(onStage: bool, r: int, ghost fs: seq<Field>) returns (b: array<real>, t: array<real>)
      requires 0 <= r < |ranks| <= p.ny && RankValid(r) && IsCluster(p, fs) && |fs| == |ranks|
      requires FieldOf(onStage, r) == fs[r]
      modifies Target(onStage, r)
      ensures fresh(b) && fresh(t) && Sent(b, t, fs, r) && FieldOf(onStage, r) == Filled(p, fs, r)
    {
      hide BlockSize;
      hide BlockStart;
      hide Snap;
      hide Sized;
      hide FillX;
      b, t := ranks[r].PackHalos(Target(onStage, r));
    }

    method UnpackOne(onStage: bool, r: int, below: array<real>, above: array<real>, ghost fs: seq<Field>)
      requires 0 <= r < |ranks| <= p.ny && RankValid(r) && IsCluster(p, fs) && |fs| == |ranks|
      requires below != Target(onStage, r) && above != Target(onStage, r)
      requires Sized(below.Length, Width(p), p.ng) && Sized(above.Length, Width(p), p.ng)
      requires 0 <= Prev(r, |fs|) < |fs| && 0 <= Next(r, |fs|) < |fs|
      requires Snap(below[..], Width(p), p.ng) == TopRows(p, Rows(p, |fs|, Prev(r, |fs|)), Filled(p, fs, Prev(r, |fs|)))
      requires Snap(above[..], Width(p), p.ng)
          == BottomRows(p, Rows(p, |fs|, Next(r, |fs|)), Filled(p, fs, Next(r, |fs|)))
      requires FieldOf(onStage, r) == Filled(p, fs, r)
      modifies Target(onStage, r)
      ensures FieldOf(onStage, r) == Received(p, fs, r)
    {
      hide BlockSize;
      hide BlockStart;
      hide Snap;
      hide Sized;
      hide FillX;
      hide Prev;
      hide Next;
      hide PutHalos;
      hide TopRows;
      hide BottomRows;
      ranks[r].UnpackHalos(Target(onStage, r), below, above);
    }

    /** Every rank fills its columns and packs its edge rows. */
    method PackAll(onStage: bool) returns (bottoms: seq<array<real>>, tops: seq<array<real>>)
      requires Valid()
      modifies Targets(onStage)
      ensures |bottoms| == |tops| == |ranks|
      ensures forall k :: 0 <= k < |ranks| ==> fresh(bottoms[k]) && fresh(tops[k])
      ensures forall k :: 0 <= k < |ranks| ==> RankValid(k) && FieldOf(onStage, k) == Filled(p, old(Fields(onStage)), k)
      ensures forall k :: 0 <= k < |ranks| ==> Sent(bottoms[k], tops[k], old(Fields(onStage)), k)
    {
      hide BlockSize;
      hide BlockStart;
      hide Snap;
      hide Sized;
      hide FillX;
      hide Filled;
      hide FieldOf;
      hide TopRows;
      hide BottomRows;
      hide Sent;
      var n := |ranks|;
      ghost var fs := Fields(onStage);
      bottoms, tops := [], [];
      for r := 0 to n
        invariant |bottoms| == |tops| == r
        invariant forall k :: 0 <= k < r ==> fresh(bottoms[k]) && fresh(tops[k])
        invariant forall k :: 0 <= k < r ==> RankValid(k) && FieldOf(onStage, k) == Filled(p, fs, k)
        invariant forall k :: r <= k < n ==> RankValid(k) && FieldOf(onStage, k) == fs[k]
        invariant forall k :: 0 <= k < r ==> Sent(bottoms[k], tops[k], fs, k)
      {
        forall k | 0 <= k < n && k != r ensures Target(onStage, r) != Target(onStage, k) {
          TargetsDistinct(onStage, r, k);
        }
        var b, t := PackOne(onStage, r, fs);
        bottoms, tops := bottoms + [b], tops + [t];
      }
    }

    /** Every rank unpacks what its neighbours sent. */
    method UnpackAll(onStage: bool, bottoms: seq<array<real>>, tops: seq<array<real>>, ghost fs: seq<Field>)
      requires Valid() && 1 < |ranks| && IsCluster(p, fs) && |fs| == |ranks| == |bottoms| == |tops|
      requires forall k :: 0 <= k < |ranks| ==> bottoms[k] !in Targets(onStage) && tops[k] !in Targets(onStage)
      requires forall k :: 0 <= k < |ranks| ==> RankValid(k) && FieldOf(onStage, k) == Filled(p, fs, k)
      requires forall k :: 0 <= k < |ranks| ==> Sent(bottoms[k], tops[k], fs, k)
      modifies Targets(onStage)
      ensures forall k :: 0 <= k < |ranks| ==> RankValid(k) && FieldOf(onStage, k) == Received(p, fs, k)
    {
      hide BlockSize;
      hide BlockStart;
      hide Snap;
      hide Sized;
      hide Filled;
      hide Received;
      hide FieldOf;
      hide TopRows;
      hide BottomRows;
      var n := |ranks|;
      for r := 0 to n
        invariant forall k :: 0 <= k < r ==> RankValid(k) && FieldOf(onStage, k) == Received(p, fs, k)
        invariant forall k :: r <= k < n ==> RankValid(k) && FieldOf(onStage, k) == Filled(p, fs, k)
        invariant forall k :: 0 <= k < n ==> Sent(bottoms[k], tops[k], fs, k)
      {
        forall k | 0 <= k < n && k != r ensures Target(onStage, r) != Target(onStage, k) {
          TargetsDistinct(onStage, r, k);
        }
        Ring(r, n);
        var below, above := tops[Prev(r, n)], bottoms[Next(r, n)];
        assert Sent(bottoms[Prev(r, n)], below, fs, Prev(r, n));
        assert Sent(above, tops[Next(r, n)], fs, Next(r, n));
        UnpackOne(onStage, r, below, above, fs);
      }
    }

    /** `fill_boundaries` on every rank: one message each way between all neighbours, or the wrap of
        a lone rank. */
    method Exchange(onStage: bool)
      requires Valid()
      modifies Targets(onStage)
      ensures Fields(onStage) == Cluster.Exchange(p, old(Fields(onStage)))
    {
      hide BlockSize;
      hide BlockStart;
      hide Filled;
      hide Received;
      ghost var fs := Fields(onStage);
      if |ranks| == 1 {
        FillLone(onStage);
        return;
      }
      var bottoms, tops := PackAll(onStage);
      UnpackAll(onStage, bottoms, tops, fs);
    }

    method FillLone(onStage: bool)
      requires Valid() && |ranks| == 1
      modifies Target(onStage, 0)
      ensures Fields(onStage) == Cluster.Exchange(p, old(Fields(onStage)))
    {
      hide Snap;
      hide Sized;
      hide FillX;
      hide FillY;
      assert RankValid(0) && Rows(p, 1, 0) == p.ny;
      ranks[0].FillBoundaries(Target(onStage, 0));
    }

    /** The buffers hold rank k's edge rows, columns filled. */
    ghost predicate Sent(bottom: array<real>, top: array<real>, fs: seq<Field>, k: int)
      requires IsCluster(p, fs) && |fs| == |ranks| && 0 <= k < |ranks|
      reads bottom, top
    {
      && Sized(bottom.Length, Width(p), p.ng) && Sized(top.Length, Width(p), p.ng)
      && Snap(bottom[..], Width(p), p.ng) == BottomRows(p, Rows(p, |fs|, k), Filled(p, fs, k))
      && Snap(top[..], Width(p), p.ng) == TopRows(p, Rows(p, |fs|, k), Filled(p, fs, k))
    }

    // ----- Local phases on every rank -----

    method UpdateAllFirstOrder(dt: real)
      requires Valid()
      modifies Targets(false), RhsArrays()
      ensures Fields(false) == AllPhaseOne(p, false, dt, old(Fields(false)))
    {
      hide BlockSize;
      hide BlockStart;
      hide Snap;
      hide Sized;
      hide PhaseOne;
      var n := |ranks|;
      ghost var fs := Fields(false);
      for r := 0 to n
        invariant forall k :: 0 <= k < r ==>
            RankValid(k) && FieldOf(false, k) == PhaseOne(p, Rows(p, n, k), false, dt, fs[k])
        invariant forall k :: r <= k < n ==> RankValid(k) && FieldOf(false, k) == fs[k]
      {
        forall k | 0 <= k < n && k != r ensures Target(false, k) != ranks[r].u && Target(false, k) != ranks[r].rhs {
          RanksApart(r, k);
          assert Target(false, k) in ranks[k].Arrays() && ranks[r].u in ranks[r].Arrays() &&
              ranks[r].rhs in ranks[r].Arrays();
        }
        assert RankValid(r);
        assert Target(false, r) in Targets(false) && ranks[r].rhs in RhsArrays();
        ranks[r].UpdateFirstOrder(dt);
      }
    }

    method PredictAllStages(dt: real)
      requires Valid()
      modifies Targets(true), RhsArrays()
      ensures Fields(false) == old(Fields(false))
      ensures Fields(true) == AllPhaseOne(p, true, dt, old(Fields(false)))
    {
      hide BlockSize;
      hide BlockStart;
      hide Snap;
      hide Sized;
      hide PhaseOne;
      var n := |ranks|;
      ghost var fs := Fields(false);
      for r := 0 to n
        invariant forall k :: 0 <= k < n ==> RankValid(k) && FieldOf(false, k) == fs[k]
        invariant forall k :: 0 <= k < r ==>
            RankValid(k) && FieldOf(true, k) == PhaseOne(p, Rows(p, n, k), true, dt, fs[k])
      {
        forall k | 0 <= k < n && k != r
          ensures Target(false, k) != ranks[r].stage && Target(false, k) != ranks[r].rhs
          ensures Target(true, k) != ranks[r].stage && Target(true, k) != ranks[r].rhs
        {
          RanksApart(r, k);
          assert Target(false, k) in ranks[k].Arrays() && Target(true, k) in ranks[k].Arrays();
          assert ranks[r].stage in ranks[r].Arrays() && ranks[r].rhs in ranks[r].Arrays();
        }
        assert RankValid(r);
        assert Target(true, r) in Targets(true) && ranks[r].rhs in RhsArrays();
        ranks[r].PredictStage(dt);
      }
    }

    method CorrectAllFromStages(dt: real)
      requires Valid()
      modifies Targets(false), RhsStageArrays()
      ensures Fields(false) == AllPhaseTwo(p, dt, old(Fields(false)), old(Fields(true)))
    {
      hide BlockSize;
      hide BlockStart;
      hide Snap;
      hide Sized;
      hide PhaseTwo;
      var n := |ranks|;
      ghost var fs, ss := Fields(false), Fields(true);
      for r := 0 to n
        invariant forall k :: 0 <= k < n ==> RankValid(k) && FieldOf(true, k) == ss[k]
        invariant forall k :: 0 <= k < r ==>
            RankValid(k) && FieldOf(false, k) == PhaseTwo(p, Rows(p, n, k), dt, fs[k], ss[k])
        invariant forall k :: r <= k < n ==> RankValid(k) && FieldOf(false, k) == fs[k]
      {
        forall k | 0 <= k < n && k != r
          ensures Target(false, k) != ranks[r].u && Target(false, k) != ranks[r].rhsStage
          ensures Target(true, k) != ranks[r].u && Target(true, k) != ranks[r].rhsStage
        {
          RanksApart(r, k);
          assert Target(false, k) in ranks[k].Arrays() && Target(true, k) in ranks[k].Arrays();
          assert ranks[r].u in ranks[r].Arrays() && ranks[r].rhsStage in ranks[r].Arrays();
        }
        assert RankValid(r);
        assert Target(false, r) in Targets(false) && ranks[r].rhsStage in RhsStageArrays();
        ranks[r].CorrectFromStage(dt);
      }
    }

    /** `advance(dt)` on every rank: in place, with messages, it is one lockstep cluster step. */
    method Advance(dt: real)
      requires Valid()
      modifies Targets(false), Targets(true), RhsArrays(), RhsStageArrays()
      ensures Fields(false) == ClusterAdvance(p, dt, old(Fields(false)))
    {
      hide BlockSize;
      hide BlockStart;
      hide Cluster.Exchange;
      hide AllPhaseOne;
      hide AllPhaseTwo;
      hide FieldOf;
      ghost var fs := Fields(false);
      Exchange(false);
      if p.reconstruction == FirstOrder {
        UpdateAllFirstOrder(dt);
        Exchange(false);
      } else {
        PredictAllStages(dt);
        ghost var us := Fields(false);
        StagesApart();
        Exchange(true);
        assert Fields(false) == us;
        CorrectAllFromStages(dt);
        Exchange(false);
      }
    }

    lemma StagesApart()
      requires Valid()
      ensures Targets(false) !! Targets(true)
    {
      forall r, k | 0 <= r < |ranks| && 0 <= k < |ranks| ensures Target(false, r) != Target(true, k) {
        assert RankValid(r);
        if r != k {
          RanksApart(r, k);
          assert Target(false, r) in ranks[r].Arrays() && Target(true, k) in ranks[k].Arrays();
        }
      }
    }

    /** `compute_time_step` with its global maximum: every rank gets the same step. */
    method ComputeTimeStep() returns (dt: real)
      requires Valid()
      ensures dt == ClusterTimeStep(p, Fields(false))
    {
      hide BlockSize;
      hide BlockStart;
      hide FieldOf;
      hide ReduceMax;
      hide RankFastest;
      if p.fixedDt > 0.0 {
        return p.fixedDt;
      }
      ghost var fs := Fields(false);
      ghost var f := RankFastest(p, fs);
      assert forall k :: 0 <= k < |ranks| ==> allocated(Target(false, k));
      var m := LargestSpeedOf(0, fs);
      ReduceFirst(f);
      for r := 1 to |ranks|
        invariant m == ReduceMax(r, f)
        invariant forall k :: 0 <= k < |ranks| ==> RankValid(k) && FieldOf(false, k) == fs[k]
      {
        var local := LargestSpeedOf(r, fs);
        ReduceNext(r, f);
        m := States.Max(m, local);
      }
      assert Fields(false) == fs;
      dt := StepFor(p, m);
    }

    method LargestSpeedOf(r: int, ghost fs: seq<Field>) returns (m: real)
      requires 0 <= r < |ranks| <= p.ny && RankValid(r) && IsCluster(p, fs) && |fs| == |ranks| &&
          FieldOf(false, r) == fs[r]
      ensures m == RankFastest(p, fs)(r)
    {
      hide BlockSize;
      hide BlockStart;
      hide Sized;
      hide Snap;
      hide LocalFastest;
      m := ranks[r].LargestSpeed();
    }

    /** A whole run: in place, flat, haloed and distributed, it keeps holding the reference grid. */
    method Run(dts: seq<real>)
      requires Valid()
      modifies Targets(false), Targets(true), RhsArrays(), RhsStageArrays()
      ensures Fields(false) == ClusterRun(p, dts, old(Fields(false)))
      ensures forall g :: Owns(p, old(Fields(false)), g) && WideForRun(p, |ranks|) ==>
                Owns(p, Fields(false), PeriodicGrid.Run(p, dts, g))
    {
      hide ClusterAdvance;
      hide FieldOf;
      hide BlockSize;
      hide BlockStart;
      hide PeriodicGrid.Run;
      hide OwnsBlock;
      ghost var fs := Fields(false);
      for k := 0 to |dts|
        invariant ClusterRun(p, dts[k..], Fields(false)) == ClusterRun(p, dts, fs)
      {
        assert dts[k..][1..] == dts[k + 1..];
        Advance(dts[k]);
      }
      forall g | Owns(p, fs, g) && WideForRun(p, |ranks|)
        ensures Owns(p, Fields(false), PeriodicGrid.Run(p, dts, g))
      {
        RunRefines(p, dts, fs, g, 0);
      }
    }

    /** `compute_diagnostics` with its two global reductions. */
    method ComputeDiagnostics() returns (d: ScalarDiagnostics)
      requires Valid()
      ensures d == ClusterReport(p, Fields(false))
    {
      hide Fields;
      hide Valid;
      hide Mean;
      hide Times;
      var acc := ReduceDiagnostics();
      ghost var fs := Fields(false);
      d := Report(p, acc.SumOf, acc.MaxOf);
      SameReport(p, acc.SumOf, acc.MaxOf,
                 q => Sum(|fs|, RankSum(p, fs, q)), x => ReduceMax(|fs|, RankMax(p, fs, x)));
    }

    /** The two reductions. */
    method ReduceDiagnostics() returns (acc: Accumulator)
      requires Valid()
      ensures forall q :: acc.SumOf(q) == Sum(|ranks|, RankSum(p, Fields(false), q))
      ensures forall x :: acc.MaxOf(x) == ReduceMax(|ranks|, RankMax(p, Fields(false), x))
    {
      hide BlockSize;
      hide BlockStart;
      hide FieldOf;
      hide ReduceMax;
      hide RankSum;
      hide RankMax;
      hide Combine;
      hide Accumulator.SumOf;
      hide Accumulator.MaxOf;
      ghost var fs := Fields(false);
      assert forall k :: 0 <= k < |ranks| ==> allocated(Target(false, k));
      acc := DiagnosticsOf(0, fs);
      forall x { ReduceFirst(RankMax(p, fs, x)); }
      for r := 1 to |ranks|
        invariant forall q :: acc.SumOf(q) == Sum(r, RankSum(p, fs, q))
        invariant forall x :: acc.MaxOf(x) == ReduceMax(r, RankMax(p, fs, x))
        invariant forall k :: 0 <= k < |ranks| ==> RankValid(k) && FieldOf(false, k) == fs[k]
      {
        var local := DiagnosticsOf(r, fs);
        forall x { ReduceNext(r, RankMax(p, fs, x)); }
        CombineAdds(acc, local);
        acc := Combine(acc, local);
      }
      assert Fields(false) == fs;
    }

    method DiagnosticsOf(r: int, ghost fs: seq<Field>) returns (acc: Accumulator)
      requires 0 <= r < |ranks| <= p.ny && RankValid(r) && IsCluster(p, fs) && |fs| == |ranks| &&
          FieldOf(false, r) == fs[r]
      ensures forall q :: acc.SumOf(q) == RankSum(p, fs, q)(r)
      ensures forall x :: acc.MaxOf(x) == RankMax(p, fs, x)(r)
    {
      hide BlockSize;
      hide BlockStart;
      hide Sized;
      hide Snap;
      hide LocalSummand;
      hide LocalCandidate;
      hide GridSum;
      hide GridLargest;
      acc := ranks[r].LocalDiagnostics();
    }
  }
}
