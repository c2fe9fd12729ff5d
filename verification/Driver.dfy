/** The driver's loop around the solver: any number of ranks writes what one rank on the whole grid
    would, step by step and value by value. */
module Driver {
  import opened States
  import opened PeriodicGrid
  import opened RankField
  import opened Cluster
  import opened Positivity
  import opened Reductions
  import opened TimeLoop
  import opened World

  /** One call of the writer: the step, the time and the diagnostics. */
  datatype Output = Output(step: int, t: real, report: ScalarDiagnostics)

  /** The last step is cut to end at the final time. */
  function Clip(c: Config, t: real, dt: real): real {
    if t + dt > c.tfinal then c.tfinal - t else dt
  }

  function Attach(w: seq<Write>, report: int -> ScalarDiagnostics): (o: seq<Output>)
    ensures |o| == |w|
  {
    seq(|w|, i requires 0 <= i < |w| => Output(w[i].step, w[i].t, report(w[i].step)))
  }

  lemma AttachGrows(w: seq<Write>, x: Write, report: int -> ScalarDiagnostics)
    ensures Attach(w + [x], report) == Attach(w, report) + [Output(x.step, x.t, report(x.step))]
    ensures Attach([], report) == [] && Attach([x], report) == [Output(x.step, x.t, report(x.step))]
  {
  }

  // ----- On the whole grid -----

  /** Grid and time after `k` steps. */
  function GridAt(c: Config, p: Params, g: Grid, k: nat): (r: (Grid, real))
    requires Shape(g, p.nx, p.ny)
    ensures Shape(r.0, p.nx, p.ny)
  {
    if k == 0 then (g, 0.0)
    else
      var (h, t) := GridAt(c, p, g, k - 1);
      var dt := Clip(c, t, TimeStep(p, h));
      (Advance(p, dt, h), t + dt)
  }

  function GridSteps(c: Config, p: Params, g: Grid): nat -> real
    requires Shape(g, p.nx, p.ny)
  {
    (k: nat) => TimeStep(p, GridAt(c, p, g, k).0)
  }

  function GridReports(c: Config, p: Params, g: Grid): int -> ScalarDiagnostics
    requires Shape(g, p.nx, p.ny)
  {
    k => GridReport(p, GridAt(c, p, g, if k < 0 then 0 else k).0)
  }

  /** What one run on the whole grid writes in `n` steps. */
  ghost function GridOutputs(c: Config, p: Params, g: Grid, n: nat): seq<Output>
    requires Shape(g, p.nx, p.ny)
  {
    Attach(Log(c, GridSteps(c, p, g), n), GridReports(c, p, g))
  }

  // ----- On all ranks -----

  function ClusterAt(c: Config, p: Params, fs: seq<Field>, k: nat): (r: (seq<Field>, real))
    requires IsCluster(p, fs)
    ensures IsCluster(p, r.0) && |r.0| == |fs|
  {
    if k == 0 then (fs, 0.0)
    else
      var (hs, t) := ClusterAt(c, p, fs, k - 1);
      var dt := Clip(c, t, ClusterTimeStep(p, hs));
      (ClusterAdvance(p, dt, hs), t + dt)
  }

  function ClusterSteps(c: Config, p: Params, fs: seq<Field>): nat -> real
    requires IsCluster(p, fs)
  {
    (k: nat) => ClusterTimeStep(p, ClusterAt(c, p, fs, k).0)
  }

  function ClusterReports(c: Config, p: Params, fs: seq<Field>): int -> ScalarDiagnostics
    requires IsCluster(p, fs)
  {
    k => ClusterReport(p, ClusterAt(c, p, fs, if k < 0 then 0 else k).0)
  }

  ghost function ClusterOutputs(c: Config, p: Params, fs: seq<Field>, n: nat): seq<Output>
    requires IsCluster(p, fs)
  {
    Attach(Log(c, ClusterSteps(c, p, fs), n), ClusterReports(c, p, fs))
  }

  lemma ClusterNext(c: Config, p: Params, fs: seq<Field>, k: nat)
    requires IsCluster(p, fs)
    ensures var (hs, t) := ClusterAt(c, p, fs, k);
            && ClusterSteps(c, p, fs)(k) == ClusterTimeStep(p, hs)
            && ClusterReports(c, p, fs)(k) == ClusterReport(p, hs)
            && ClusterAt(c, p, fs, k + 1).0 == ClusterAdvance(p, Clip(c, t, ClusterSteps(c, p, fs)(k)), hs)
            && ClusterAt(c, p, fs, k + 1).1 == t + Clip(c, t, ClusterSteps(c, p, fs)(k))
  {
    hide ClusterTimeStep;
    hide ClusterAdvance;
    hide ClusterReport;
    hide Clip;
  }

  // ----- The ranks write what the grid would -----

  lemma GridNext(c: Config, p: Params, g: Grid, k: nat)
    requires Shape(g, p.nx, p.ny)
    ensures var (h, t) := GridAt(c, p, g, k);
            && GridSteps(c, p, g)(k) == TimeStep(p, h)
            && GridReports(c, p, g)(k) == GridReport(p, h)
            && GridAt(c, p, g, k + 1).0 == Advance(p, Clip(c, t, GridSteps(c, p, g)(k)), h)
            && GridAt(c, p, g, k + 1).1 == t + Clip(c, t, GridSteps(c, p, g)(k))
    ensures GridAt(c, p, g, 0) == (g, 0.0)
  {
    hide TimeStep;
    hide Advance;
    hide GridReport;
    hide Clip;
  }

  lemma MomentsAgree(p: Params, hs: seq<Field>, h: Grid)
    requires HaloedWithin(p, hs, h, 1)
    ensures ClusterTimeStep(p, hs) == TimeStep(p, h) && ClusterReport(p, hs) == GridReport(p, h)
  {
    hide ClusterTimeStep;
    hide TimeStep;
    hide ClusterReport;
    hide GridReport;
    hide HaloedBlock;
    hide OwnsBlock;
    HaloedOwns(p, hs, h, 1);
    TimeStepAgrees(p, hs, h);
    ReportAgrees(p, hs, h);
  }

  lemma TurnKeepsHalos(p: Params, dt: real, hs: seq<Field>, h: Grid)
    requires HaloedWithin(p, hs, h, 1) && WideForRun(p, |hs|)
    ensures HaloedWithin(p, ClusterAdvance(p, dt, hs), Advance(p, dt, h), 1)
  {
    hide ClusterAdvance;
    hide Advance;
    hide HaloedBlock;
    hide OwnsBlock;
    HaloedOwns(p, hs, h, 1);
    AdvanceRefines(p, dt, hs, h, 1);
  }

  /** Starting with the halos the initialization fills, the ranks hold the grid, halos included, at
      the same times, and take the same steps. */
  lemma {:induction false} TrajectoriesAgree(c: Config, p: Params, fs: seq<Field>, g: Grid, k: nat)
    requires HaloedWithin(p, fs, g, 1) && WideForRun(p, |fs|)
    ensures HaloedWithin(p, ClusterAt(c, p, fs, k).0, GridAt(c, p, g, k).0, 1)
    ensures ClusterAt(c, p, fs, k).1 == GridAt(c, p, g, k).1
    ensures ClusterSteps(c, p, fs)(k) == GridSteps(c, p, g)(k)
    ensures ClusterReports(c, p, fs)(k) == GridReports(c, p, g)(k)
  {
    hide ClusterAt;
    hide GridAt;
    hide ClusterSteps;
    hide GridSteps;
    hide ClusterReports;
    hide GridReports;
    hide ClusterTimeStep;
    hide TimeStep;
    hide ClusterAdvance;
    hide Advance;
    hide ClusterReport;
    hide GridReport;
    hide HaloedBlock;
    hide Clip;
    hide WideForRun;
    ClusterNext(c, p, fs, k);
    GridNext(c, p, g, k);
    if k == 0 {
      ClusterStart(c, p, fs);
    } else {
      TrajectoriesAgree(c, p, fs, g, k - 1);
      ClusterNext(c, p, fs, k - 1);
      GridNext(c, p, g, k - 1);
      var (hs, t) := ClusterAt(c, p, fs, k - 1);
      TurnKeepsHalos(p, Clip(c, t, ClusterSteps(c, p, fs)(k - 1)), hs, GridAt(c, p, g, k - 1).0);
    }
    MomentsAgree(p, ClusterAt(c, p, fs, k).0, GridAt(c, p, g, k).0);
  }

  /** Any number of wide enough ranks writes the grid's list and ends where the grid's run ends. */
  lemma OutputsAgree(c: Config, p: Params, fs: seq<Field>, g: Grid, n: nat)
    requires HaloedWithin(p, fs, g, 1) && WideForRun(p, |fs|)
    ensures ClusterOutputs(c, p, fs, n) == GridOutputs(c, p, g, n)
    ensures LoopEnds(c, ClusterSteps(c, p, fs), n) <==> LoopEnds(c, GridSteps(c, p, g), n)
  {
    forall k: nat
      ensures ClusterSteps(c, p, fs)(k) == GridSteps(c, p, g)(k)
      ensures ClusterReports(c, p, fs)(k) == GridReports(c, p, g)(k)
    {
      TrajectoriesAgree(c, p, fs, g, k);
    }
    hide ClusterSteps;
    hide GridSteps;
    hide ClusterReports;
    hide GridReports;
    hide HaloedWithin;
    LogExt(c, ClusterSteps(c, p, fs), GridSteps(c, p, g), n);
    EndExt(c, ClusterSteps(c, p, fs), GridSteps(c, p, g), n);
    WritesIncrease(c, GridSteps(c, p, g), n);
    hide Log;
    hide LoopEnds;
  }

  /** Two distributed runs of one problem, on any two numbers of ranks, end at the same step and
      write the same list. */
  lemma RankCountIrrelevant(c: Config, p: Params, fs: seq<Field>, fs': seq<Field>, g: Grid, n: nat, n': nat)
    requires HaloedWithin(p, fs, g, 1) && WideForRun(p, |fs|)
    requires HaloedWithin(p, fs', g, 1) && WideForRun(p, |fs'|)
    requires LoopEnds(c, ClusterSteps(c, p, fs), n) && LoopEnds(c, ClusterSteps(c, p, fs'), n')
    ensures n == n' && ClusterOutputs(c, p, fs, n) == ClusterOutputs(c, p, fs', n')
  {
    assert Shape(g, p.nx, p.ny);
    hide HaloedWithin;
    hide ClusterSteps;
    hide GridSteps;
    hide ClusterOutputs;
    hide GridOutputs;
    hide LoopEnds;
    OutputsAgree(c, p, fs, g, n);
    OutputsAgree(c, p, fs', g, n');
    EndUnique(c, GridSteps(c, p, g), n, n');
  }

  // ----- The loop itself -----

  /** One step of all ranks, cut at the final time. */
  method TakeTurn(world: World, c: Config, t: real, dt: real, ghost fs: seq<Field>, ghost k: nat) returns (t': real)
    requires world.Valid() && IsCluster(world.p, fs) && dt == ClusterSteps(c, world.p, fs)(k)
    requires (world.Fields(false), t) == ClusterAt(c, world.p, fs, k)
    modifies world.Targets(false), world.Targets(true), world.RhsArrays(), world.RhsStageArrays()
    ensures (world.Fields(false), t') == ClusterAt(c, world.p, fs, k + 1)
    ensures t' == if t + dt > c.tfinal then c.tfinal else t + dt
  {
    hide World.Valid;
    hide World.RhsArrays;
    hide World.RhsStageArrays;
    hide World.Fields;
    hide ClusterTimeStep;
    hide ClusterAdvance;
    hide ClusterReport;
    hide ClusterAt;
    hide ClusterSteps;
    ClusterNext(c, world.p, fs, k);
    var step := dt;
    if t + dt > c.tfinal {
      step := c.tfinal - t;
    }
    world.Advance(step);
    t' := t + step;
  }

  /** The driver's main loop over the solver objects. It fails exactly where a step length is not
      positive. */
  method Drive(world: World, c: Config) returns (step: nat, completed: bool, outputs: seq<Output>)
    requires world.Valid() && Accepted(c)
    modifies world.Targets(false), world.Targets(true), world.RhsArrays(), world.RhsStageArrays()
    ensures world.Fields(false) == ClusterAt(c, world.p, old(world.Fields(false)), step).0
    ensures outputs == ClusterOutputs(c, world.p, old(world.Fields(false)), step)
    ensures LoopEnds(c, ClusterSteps(c, world.p, old(world.Fields(false))), step)
    ensures completed <==>
              c.tfinal <= Time(c, ClusterSteps(c, world.p, old(world.Fields(false))), step) || c.maxSteps <= step
    ensures forall g :: HaloedWithin(world.p, old(world.Fields(false)), g, 1) && WideForRun(world.p, |world.ranks|) ==>
              outputs == GridOutputs(c, world.p, g, step) && LoopEnds(c, GridSteps(c, world.p, g), step)
  {
    hide World.Valid;
    hide World.Fields;
    hide World.RhsArrays;
    hide World.RhsStageArrays;
    hide Multiple;
    hide DueByTime;
    hide DueByStep;
    hide Due;
    hide IsNext;
    hide Covered;
    hide Time;
    hide Log;
    hide ClusterTimeStep;
    hide ClusterAdvance;
    hide ClusterReport;
    hide ClusterAt;
    hide ClusterSteps;
    hide ClusterReports;
    hide GridOutputs;
    hide GridSteps;
    hide WideForRun;
    hide HaloedWithin;
    hide IsCluster;
    hide Attach;
    ghost var p, fs := world.p, world.Fields(false);
    ghost var dts, reports := ClusterSteps(c, p, fs), ClusterReports(c, p, fs);
    var t;
    t, step, outputs := 0.0, 0, [];
    Start(c, dts);
    ClusterStart(c, p, fs);
    AttachGrows([], Write(0, 0.0), reports);
    if c.saveInitial {
      var d := world.ComputeDiagnostics();
      outputs := outputs + [Output(step, t, d)];
    }
    var nextDump := c.everyTime;
    ghost var m := 1;
    completed := true;
    while t < c.tfinal && step < c.maxSteps
      invariant step == 0 || step <= c.maxSteps
      invariant world.Fields(false) == ClusterAt(c, p, fs, step).0
      invariant t == Time(c, dts, step) == ClusterAt(c, p, fs, step).1 <= c.tfinal
      invariant outputs == Attach(Log(c, dts, step), reports)
      invariant forall k :: 0 <= k < step ==> 0.0 < dts(k) && !Stops(c, dts, k)
      invariant 0.0 < c.everyTime ==>
                  nextDump == Multiple(m, c.everyTime) && IsNext(m, c.everyTime, Covered(c, dts, step))
      decreases c.maxSteps - step
    {
      ClusterNext(c, p, fs, step);
      var dt := world.ComputeTimeStep();
      if dt <= 0.0 {
        completed := false;
        break;
      }
      TakeStep(c, dts, step);
      t := TakeTurn(world, c, t, dt, fs, step);
      step := step + 1;

      ClusterNext(c, p, fs, step);
      OutputsGrow(c, dts, reports, step - 1);
      var dueStep := DueByStep(c, step);
      var dueTime;
      dueTime, nextDump, m := CheckDump(c, dts, step, t, nextDump, m);
      var finalDump := t + SLACK >= c.tfinal;
      DueIs(c, dts, step);
      if dueStep || dueTime || finalDump {
        var d := world.ComputeDiagnostics();
        outputs := outputs + [Output(step, t, d)];
      }
    }
    AllOutputsAgree(c, p, fs, step);
  }

  lemma AllOutputsAgree(c: Config, p: Params, fs: seq<Field>, n: nat)
    requires IsCluster(p, fs) && LoopEnds(c, ClusterSteps(c, p, fs), n)
    ensures forall g :: HaloedWithin(p, fs, g, 1) && WideForRun(p, |fs|) ==>
              ClusterOutputs(c, p, fs, n) == GridOutputs(c, p, g, n) && LoopEnds(c, GridSteps(c, p, g), n)
  {
    forall g | HaloedWithin(p, fs, g, 1) && WideForRun(p, |fs|)
      ensures ClusterOutputs(c, p, fs, n) == GridOutputs(c, p, g, n) && LoopEnds(c, GridSteps(c, p, g), n)
    {
      OutputsAgree(c, p, fs, g, n);
    }
  }

  lemma OutputsGrow(c: Config, dts: nat -> real, reports: int -> ScalarDiagnostics, k: nat)
    ensures Due(c, dts, k + 1) ==>
              Attach(Log(c, dts, k + 1), reports)
                == Attach(Log(c, dts, k), reports) + [Output(k + 1, Time(c, dts, k + 1), reports(k + 1))]
    ensures !Due(c, dts, k + 1) ==> Attach(Log(c, dts, k + 1), reports) == Attach(Log(c, dts, k), reports)
  {
    hide Due;
    hide Time;
    AttachGrows(Log(c, dts, k), Write(k + 1, Time(c, dts, k + 1)), reports);
    assert Log(c, dts, k) + [] == Log(c, dts, k);
    hide Attach;
  }

  lemma ClusterStart(c: Config, p: Params, fs: seq<Field>)
    requires IsCluster(p, fs)
    ensures ClusterAt(c, p, fs, 0) == (fs, 0.0) && ClusterReports(c, p, fs)(0) == ClusterReport(p, fs)
  {
    hide ClusterReport;
  }

  lemma DueIs(c: Config, dts: nat -> real, k: nat)
    requires 0 < k
    ensures Due(c, dts, k) <==> DueByStep(c, k) || DueByTime(c, dts, k) || c.tfinal <= Time(c, dts, k) + SLACK
  {
  }
}
