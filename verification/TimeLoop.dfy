/** The driver's time loop: which steps are taken and which of them are written. */
module TimeLoop {
  import opened Arithmetic

  const SLACK := 0.00000000000001

  datatype Config = Config(tfinal: real, maxSteps: int, everySteps: int, everyTime: real, saveInitial: bool)

  /** What the driver insists on before it starts. */
  predicate Accepted(c: Config) {
    0.0 < c.tfinal && 0 <= c.everySteps && 0.0 <= c.everyTime
  }

  datatype Write = Write(step: int, t: real)

  datatype Outcome = Completed(step: int, t: real, writes: seq<Write>)
                   | BadStep(step: int, t: real, writes: seq<Write>)

  // ----- What should happen, without the loop's bookkeeping -----

  /** The time after `k` steps, where `dts(i)` is the step length computed before step i + 1. */
  function Time(c: Config, dts: nat -> real, k: nat): real {
    if k == 0 then 0.0 else
      var t := Time(c, dts, k - 1);
      if t + dts(k - 1) > c.tfinal then c.tfinal else t + dts(k - 1)
  }

  /** The time up to which dumps count as done after `k` steps. */
  function Covered(c: Config, dts: nat -> real, k: nat): real {
    if k == 0 then 0.0 else Time(c, dts, k) + SLACK
  }

  function Multiple(m: int, cadence: real): real {
    m as real * cadence
  }

  /** Some positive multiple of the cadence was passed in step `k`. */
  ghost predicate DueByTime(c: Config, dts: nat -> real, k: nat)
    requires 0 < k
  {
    0.0 < c.everyTime &&
    exists m :: 1 <= m && Covered(c, dts, k - 1) < Multiple(m, c.everyTime) <= Covered(c, dts, k)
  }

  predicate DueByStep(c: Config, k: nat) {
    0 < c.everySteps && k % c.everySteps == 0
  }

  /** The step cadence marks its multiples and no other steps. */
  lemma StepCadence(c: Config, k: nat)
    requires 0 < k
    ensures DueByStep(c, k) <==> 0 < c.everySteps && exists q: nat :: 1 <= q && k == q * c.everySteps
  {
    if DueByStep(c, k) {
      assert k == (k / c.everySteps) * c.everySteps;
    }
    if 0 < c.everySteps {
      forall q: nat | k == q * c.everySteps ensures k % c.everySteps == 0 {
        DivisionUnique(k, q, 0, c.everySteps);
      }
    }
  }

  ghost predicate Due(c: Config, dts: nat -> real, k: nat)
    requires 0 < k
  {
    || DueByStep(c, k)
    || DueByTime(c, dts, k)
    || c.tfinal <= Time(c, dts, k) + SLACK
  }

  ghost function Log(c: Config, dts: nat -> real, n: nat): seq<Write> {
    if n == 0 then (if c.saveInitial then [Write(0, 0.0)] else [])
    else Log(c, dts, n - 1) + (if Due(c, dts, n) then [Write(n, Time(c, dts, n))] else [])
  }

  /** The loop does not go on after `k` steps: the end is reached, the steps are used up, or the next
      step length is no good. */
  predicate Stops(c: Config, dts: nat -> real, k: nat) {
    c.tfinal <= Time(c, dts, k) || c.maxSteps <= k || dts(k) <= 0.0
  }

  /** `n` is where the loop ends. */
  ghost predicate LoopEnds(c: Config, dts: nat -> real, n: nat) {
    Stops(c, dts, n) && forall k :: 0 <= k < n ==> !Stops(c, dts, k)
  }

  lemma {:induction false} TimeExt(c: Config, dts: nat -> real, dts': nat -> real, n: nat)
    requires forall k :: 0 <= k < n ==> dts(k) == dts'(k)
    ensures Time(c, dts, n) == Time(c, dts', n) && Covered(c, dts, n) == Covered(c, dts', n)
  {
    if n != 0 { TimeExt(c, dts, dts', n - 1); }
  }

  /** The log depends on the lengths of the steps taken alone. */
  lemma {:induction false} LogExt(c: Config, dts: nat -> real, dts': nat -> real, n: nat)
    requires forall k :: 0 <= k < n ==> dts(k) == dts'(k)
    ensures Log(c, dts, n) == Log(c, dts', n)
  {
    if n != 0 {
      LogExt(c, dts, dts', n - 1);
      TimeExt(c, dts, dts', n - 1);
      TimeExt(c, dts, dts', n);
    }
  }

  lemma EndExt(c: Config, dts: nat -> real, dts': nat -> real, n: nat)
    requires forall k :: 0 <= k <= n ==> dts(k) == dts'(k)
    ensures LoopEnds(c, dts, n) <==> LoopEnds(c, dts', n)
  {
    forall k | 0 <= k <= n ensures Stops(c, dts, k) <==> Stops(c, dts', k) {
      TimeExt(c, dts, dts', k);
    }
  }

  /** The loop ends in one place. */
  lemma EndUnique(c: Config, dts: nat -> real, n: nat, m: nat)
    requires LoopEnds(c, dts, n) && LoopEnds(c, dts, m)
    ensures n == m
  {
  }

  // ----- The loop -----

  /** `m` is the index of the least positive multiple of the cadence above `x`. */
  ghost predicate IsNext(m: int, cadence: real, x: real) {
    1 <= m && x < Multiple(m, cadence) && (m == 1 || Multiple(m - 1, cadence) <= x)
  }

  lemma MultiplesIncrease(a: int, b: int, cadence: real)
    requires a <= b && 0.0 < cadence
    ensures Multiple(a, cadence) <= Multiple(b, cadence)
  {
    assert (b - a) as real * cadence >= 0.0;
    assert Multiple(b, cadence) == Multiple(a, cadence) + (b - a) as real * cadence;
  }

  lemma MultipleBelow(m: int, cadence: real, x: real)
    requires 0.0 < cadence && Multiple(m, cadence) <= x
    ensures m <= (x / cadence).Floor
  {
    var d := x - Multiple(m, cadence);
    assert x / cadence == m as real + d / cadence;
    assert 0.0 <= d / cadence;
  }

  /** Raises the next dump past `x`, by whole cadences and no further than needed. */
  method SkipDumps(start: real, ghost m0: int, cadence: real, x: real) returns (next: real, ghost m: int)
    requires 0.0 < cadence && 1 <= m0 && start == Multiple(m0, cadence) && start <= x
    ensures next == Multiple(m, cadence) && IsNext(m, cadence, x)
    ensures x < next <= x + cadence
  {
    next, m := start, m0;
    MultipleBelow(m, cadence, x);
    while x >= next
      invariant m0 <= m && next == Multiple(m, cadence)
      invariant (m == m0 && next <= x) || (next <= x + cadence && Multiple(m - 1, cadence) <= x)
      decreases (x / cadence).Floor + 1 - m
    {
      MultipleBelow(m, cadence, x);
      assert Multiple(m + 1, cadence) == Multiple(m, cadence) + cadence;
      next := next + cadence;
      m := m + 1;
    }
  }

  /** The stored next dump tells whether a multiple was passed. */
  lemma NextDecides(c: Config, dts: nat -> real, k: nat, m: int)
    requires 0 < k && 0.0 < c.everyTime && IsNext(m, c.everyTime, Covered(c, dts, k - 1))
    ensures Multiple(m, c.everyTime) <= Covered(c, dts, k) <==> DueByTime(c, dts, k)
  {
    if DueByTime(c, dts, k) {
      var m' :| 1 <= m' && Covered(c, dts, k - 1) < Multiple(m', c.everyTime) <= Covered(c, dts, k);
      if m' < m {
        MultiplesIncrease(m', m - 1, c.everyTime);
      } else {
        MultiplesIncrease(m, m', c.everyTime);
      }
    }
  }

  lemma {:induction false} TimesIncrease(c: Config, dts: nat -> real, a: nat, b: nat)
    requires a <= b && 0.0 <= c.tfinal && forall k :: 0 <= k < b ==> 0.0 < dts(k)
    ensures Time(c, dts, a) <= Time(c, dts, b) <= c.tfinal
    decreases b
  {
    if a < b {
      TimesIncrease(c, dts, a, b - 1);
    } else if 0 < b {
      TimesIncrease(c, dts, b - 1, b - 1);
    }
  }

  /** The cadence check of one step. */
  method CheckDump(c: Config, ghost dts: nat -> real, step: nat, t: real, nextDump: real, ghost m: int)
    returns (due: bool, next: real, ghost m': int)
    requires 0 < step && t == Time(c, dts, step) && 0.0 <= c.everyTime && Time(c, dts, step - 1) <= t && 0.0 <= t
    requires 0.0 < c.everyTime ==>
        nextDump == Multiple(m, c.everyTime) && IsNext(m, c.everyTime, Covered(c, dts, step - 1))
    ensures due <==> DueByTime(c, dts, step)
    ensures 0.0 < c.everyTime ==> next == Multiple(m', c.everyTime) && IsNext(m', c.everyTime, Covered(c, dts, step))
  {
    due, next, m' := false, nextDump, m;
    if c.everyTime > 0.0 {
      NextDecides(c, dts, step, m);
      assert Covered(c, dts, step - 1) <= Covered(c, dts, step);
      if t + SLACK >= nextDump {
        due := true;
        next, m' := SkipDumps(nextDump, m, c.everyTime, t + SLACK);
      }
    }
  }

  method RunLoop(c: Config, dts: nat -> real) returns (o: Outcome)
    requires Accepted(c)
    ensures o.step >= 0 && o.t == Time(c, dts, o.step) <= c.tfinal
    ensures o.writes == Log(c, dts, o.step)
    ensures o.step == 0 || o.step <= c.maxSteps
    ensures LoopEnds(c, dts, o.step)
    ensures forall k :: 0 <= k < o.step ==> 0.0 < dts(k) && Time(c, dts, k) < c.tfinal
    ensures o.Completed? ==> c.tfinal <= o.t || c.maxSteps <= o.step
    ensures o.BadStep? <==> o.t < c.tfinal && o.step < c.maxSteps && dts(o.step) <= 0.0
  {
    hide Multiple;
    hide DueByTime;
    hide DueByStep;
    hide IsNext;
    hide Covered;
    hide Time;
    hide Log;
    var t, step := 0.0, 0;
    var writes: seq<Write> := [];
    if c.saveInitial {
      writes := writes + [Write(step, t)];
    }
    var nextDump := c.everyTime;
    ghost var m := 1;
    Start(c, dts);
    while t < c.tfinal && step < c.maxSteps
      invariant 0 <= step && (step == 0 || step <= c.maxSteps)
      invariant t == Time(c, dts, step) <= c.tfinal && writes == Log(c, dts, step)
      invariant forall k :: 0 <= k < step ==> 0.0 < dts(k) && Time(c, dts, k) < c.tfinal
      invariant 0.0 < c.everyTime ==>
          nextDump == Multiple(m, c.everyTime) && IsNext(m, c.everyTime, Covered(c, dts, step))
      decreases c.maxSteps - step
    {
      var dt := dts(step);
      if dt <= 0.0 {
        return BadStep(step, t, writes);
      }
      if t + dt > c.tfinal {
        dt := c.tfinal - t;
      }
      TakeStep(c, dts, step);
      t := t + dt;
      step := step + 1;

      var dueStep := DueByStep(c, step);
      var dueTime;
      dueTime, nextDump, m := CheckDump(c, dts, step, t, nextDump, m);
      var finalDump := t + SLACK >= c.tfinal;
      if dueStep || dueTime || finalDump {
        writes := writes + [Write(step, t)];
      }
    }
    return Completed(step, t, writes);
  }

  lemma Start(c: Config, dts: nat -> real)
    ensures Time(c, dts, 0) == 0.0 && Log(c, dts, 0) == if c.saveInitial then [Write(0, 0.0)] else []
    ensures 0.0 < c.everyTime ==> c.everyTime == Multiple(1, c.everyTime) && IsNext(1, c.everyTime, Covered(c, dts, 0))
  {
  }

  lemma TakeStep(c: Config, dts: nat -> real, k: nat)
    requires 0.0 < c.tfinal && forall i :: 0 <= i <= k ==> 0.0 < dts(i)
    ensures var t, t' := Time(c, dts, k), Time(c, dts, k + 1);
            0.0 <= t <= t' <= c.tfinal && t' == if t + dts(k) > c.tfinal then c.tfinal else t + dts(k)
    ensures Log(c, dts, k + 1)
         == Log(c, dts, k) + if Due(c, dts, k + 1) then [Write(k + 1, Time(c, dts, k + 1))] else []
  {
    hide Due;
    TimesIncrease(c, dts, k, k + 1);
    TimesIncrease(c, dts, 0, k);
  }

  // ----- What the log of writes guarantees -----

  /** Strictly increasing steps up to `n`, each with its time. */
  ghost predicate Orderly(w: seq<Write>, c: Config, dts: nat -> real, n: int) {
    && (forall i :: 0 <= i < |w| ==> 0 <= w[i].step <= n && w[i].t == Time(c, dts, w[i].step))
    && (forall i, j :: 0 <= i < j < |w| ==> w[i].step < w[j].step)
  }

  lemma {:induction false} WritesIncrease(c: Config, dts: nat -> real, n: nat)
    ensures Orderly(Log(c, dts, n), c, dts, n)
  {
    hide Due;
    if n != 0 {
      var v := Log(c, dts, n - 1);
      WritesIncrease(c, dts, n - 1);
      assert Orderly(v, c, dts, n) && Orderly(v + [Write(n, Time(c, dts, n))], c, dts, n);
      hide Orderly;
    }
  }

  lemma {:induction false} LogGrows(c: Config, dts: nat -> real, k: nat, n: nat)
    requires k <= n
    ensures Log(c, dts, k) <= Log(c, dts, n)
    decreases n
  {
    if k < n { LogGrows(c, dts, k, n - 1); }
  }

  /** A step is written exactly when it is due. */
  lemma {:induction false} WrittenIffDue(c: Config, dts: nat -> real, n: nat, k: nat)
    requires 1 <= k <= n
    ensures Write(k, Time(c, dts, k)) in Log(c, dts, n) <==> Due(c, dts, k)
    decreases n
  {
    var now := Write(k, Time(c, dts, k));
    if k == n {
      WritesIncrease(c, dts, n - 1);
      assert now !in Log(c, dts, n - 1);
    } else {
      WrittenIffDue(c, dts, n - 1, k);
    }
  }

  /** Reaching the final time means the last write is the final state. */
  lemma FinalStateWritten(c: Config, dts: nat -> real, n: nat)
    requires 0 < n && c.tfinal <= Time(c, dts, n)
    ensures |Log(c, dts, n)| > 0 && Log(c, dts, n)[|Log(c, dts, n)| - 1] == Write(n, Time(c, dts, n))
  {
  }

  /** No dump is missed: each multiple of the cadence the run has passed was passed in one step,
      and that step was written. */
  lemma {:induction false} NoDumpMissed(c: Config, dts: nat -> real, n: nat, m: int) returns (k: nat)
    requires 0 < n && 0.0 < c.everyTime && 1 <= m && Multiple(m, c.everyTime) <= Covered(c, dts, n)
    ensures 1 <= k <= n && Covered(c, dts, k - 1) < Multiple(m, c.everyTime) <= Covered(c, dts, k)
    ensures Write(k, Time(c, dts, k)) in Log(c, dts, n)
    decreases n
  {
    MultiplesIncrease(1, m, c.everyTime);
    assert 0.0 < Multiple(1, c.everyTime) <= Multiple(m, c.everyTime);
    if Multiple(m, c.everyTime) <= Covered(c, dts, n - 1) {
      k := NoDumpMissed(c, dts, n - 1, m);
      LogGrows(c, dts, n - 1, n);
    } else {
      k := n;
      WrittenIffDue(c, dts, n, n);
    }
  }
}
