/** The step protocol of the Python Stream: loops over steps driving an engine that opens and
    closes steps. */
module StreamSteps {
  import opened Wrappers

  const MAX_SIZE := 0x7fff_ffff_ffff_ffff

  datatype Mode = Write | Append | Read | ReadRandomAccess

  datatype Status = OK | NotReady | EndOfStream | OtherError

  datatype Event = Begin | End

  /** Stream and engine together. `open` says a step is open, `calls` how often the engine was
      asked to begin one, `trace` which begins and ends succeeded. */
  datatype State = State(mode: Mode, index: int, maxSteps: int, status: Status,
                         open: bool, calls: nat, trace: seq<Event>)

  /** The engine's answer to its k-th begin. */
  type Answers = nat -> Status

  function Opened(mode: Mode): State {
    State(mode, -1, MAX_SIZE, EndOfStream, false, 0, [])
  }

  predicate ReadMode(mode: Mode) {
    mode == Read || mode == ReadRandomAccess
  }

  // ----- The calls, as functions on states -----

  /** `begin_step`: refused without asking the engine while a step is open. */
  function BeginStep(s: State, answers: Answers): (State, Status) {
    if s.open then (s, OtherError)
    else
      var a := answers(s.calls);
      if a == OK then (s.(open := true, calls := s.calls + 1, trace := s.trace + [Begin]), OK)
      else (s.(calls := s.calls + 1), a)
  }

  function EndStep(s: State): State {
    s.(open := false, trace := s.trace + [End])
  }

  /** `__next__`: true when the loop body runs, false when the loop stops. */
  function Next(s: State, answers: Answers): (State, bool) {
    var s1 := if s.index >= 0 && s.status == OK then EndStep(s) else s;
    if s1.index == s1.maxSteps - 1 then
      (s1.(status := EndOfStream), false)
    else
      var (s2, a) := BeginStep(s1.(index := s1.index + 1), answers);
      (s2.(status := a), a == OK)
  }

  /** `steps(n)`: refused (None) where the source raises. */
  function Steps(s: State, n: int): Option<State> {
    if !ReadMode(s.mode) && n == 0 then None
    else if s.mode == ReadRandomAccess then None
    else if s.mode == Read && !(s.index < 0) then None
    else Some(s.(maxSteps := if n > 0 then n else MAX_SIZE, index := -1))
  }

  // ----- Safety over every run -----

  datatype Call = CallSteps(n: int) | CallNext | CallBegin

  function Do(s: State, c: Call, answers: Answers): State {
    match c
    case CallSteps(n) => (match Steps(s, n) case Some(t) => t case None => s)
    case CallNext => Next(s, answers).0
    case CallBegin => BeginStep(s, answers).0
  }

  function Run(s: State, cs: seq<Call>, answers: Answers): State
    decreases |cs|
  {
    if cs == [] then s else Run(Do(s, cs[0], answers), cs[1..], answers)
  }

  /** Begins and ends alternate, starting with a begin; `open` iff the last one is a begin. */
  predicate Alternates(trace: seq<Event>) {
    forall k :: 0 <= k < |trace| ==> trace[k] == if k % 2 == 0 then Begin else End
  }

  /** What holds even halfway through a call. */
  predicate Balanced(s: State) {
    Alternates(s.trace) && (s.open <==> |s.trace| % 2 == 1)
  }

  predicate Inv(s: State) {
    && Balanced(s)
    && (s.index >= 0 && s.status == OK ==> s.open)
    && -1 <= s.index
  }

  lemma DoKeepsInv(s: State, c: Call, answers: Answers)
    requires Inv(s)
    ensures Inv(Do(s, c, answers))
  {
  }

  /** In every run of calls the engine sees strictly alternating begins and ends, an end is only
      ever issued for an open step, and status OK in a loop means a step is open. */
  lemma {:induction false} RunIsSafe(mode: Mode, cs: seq<Call>, answers: Answers)
    ensures Inv(Run(Opened(mode), cs, answers))
  {
    RunKeepsInv(Opened(mode), cs, answers);
  }

  lemma {:induction false} RunKeepsInv(s: State, cs: seq<Call>, answers: Answers)
    requires Inv(s)
    ensures Inv(Run(s, cs, answers))
    decreases |cs|
  {
    if cs != [] {
      DoKeepsInv(s, cs[0], answers);
      hide Inv;
      hide Do;
      RunKeepsInv(Do(s, cs[0], answers), cs[1..], answers);
    }
  }

  // ----- When a loop may start -----

  lemma DoMovesIndex(s: State, c: Call, answers: Answers)
    requires -1 <= s.index && 1 <= s.maxSteps
    ensures var t := Do(s, c, answers);
            && -1 <= t.index && 1 <= t.maxSteps && t.mode == s.mode
            && (s.mode == Read ==> (0 <= t.index <==> 0 <= s.index || c == CallNext))
  {
  }

  lemma {:induction false} ReadIndex(s: State, cs: seq<Call>, answers: Answers)
    requires -1 <= s.index && 1 <= s.maxSteps
    ensures Run(s, cs, answers).mode == s.mode
    ensures s.mode == Read ==> (0 <= Run(s, cs, answers).index <==> 0 <= s.index || CallNext in cs)
    decreases |cs|
  {
    if cs != [] {
      DoMovesIndex(s, cs[0], answers);
      ReadIndex(Do(s, cs[0], answers), cs[1..], answers);
      assert CallNext in cs <==> cs[0] == CallNext || CallNext in cs[1..];
      hide Do;
    }
  }

  /** After any run of calls, `steps(n)` is accepted exactly: in the write modes, when n is given;
      in read mode, as long as no loop has taken a turn; with random access, never. */
  lemma StepsAcceptedIff(mode: Mode, cs: seq<Call>, answers: Answers, n: int)
    ensures Steps(Run(Opened(mode), cs, answers), n).Some? <==>
            match mode
            case Write => n != 0
            case Append => n != 0
            case Read => CallNext !in cs
            case ReadRandomAccess => false
  {
    ReadIndex(Opened(mode), cs, answers);
    hide Run;
  }

  // ----- A whole loop -----

  function Pairs(k: nat): seq<Event> {
    if k == 0 then [] else Pairs(k - 1) + [Begin, End]
  }

  /** How many of the next `n` begins succeed before one does not. */
  function Successes(answers: Answers, from: nat, n: nat): nat
    decreases n
  {
    if n == 0 || answers(from) != OK then 0 else 1 + Successes(answers, from + 1, n - 1)
  }

  lemma {:induction false} SuccessesAnswer(answers: Answers, from: nat, n: nat)
    ensures Successes(answers, from, n) <= n
    ensures forall k :: from <= k < from + Successes(answers, from, n) ==> answers(k) == OK
    ensures Successes(answers, from, n) < n ==> answers(from + Successes(answers, from, n)) != OK
    decreases n
  {
    if n != 0 && answers(from) == OK { SuccessesAnswer(answers, from + 1, n - 1); }
  }

  /** Where a loop stands that began with `calls` engine calls made and `trace` behind it, after
      `bodies` bodies: inside the next body, or stopped. */
  predicate Inside(s: State, limit: nat, calls: nat, bodies: nat, trace: seq<Event>) {
    && s.maxSteps == limit && s.index == bodies && s.status == OK && s.open
    && s.calls == calls + bodies + 1 && s.trace == trace + Pairs(bodies) + [Begin]
  }

  predicate Stopped(s: State, limit: nat, calls: nat, bodies: nat, trace: seq<Event>, answers: Answers) {
    && s.trace == trace + Pairs(bodies) && !s.open
    && s.status == (if bodies == limit then EndOfStream else answers(calls + bodies))
  }

  lemma TurnsOfLoop(s: State, limit: nat, calls: nat, bodies: nat, trace: seq<Event>, answers: Answers)
    requires 0 < limit && bodies <= Successes(answers, calls, limit)
    requires bodies == 0 ==> s.maxSteps == limit && s.index == -1 && !s.open && s.calls == calls && s.trace == trace
    requires 0 < bodies ==> Inside(s, limit, calls, bodies - 1, trace)
    ensures var (t, more) := Next(s, answers);
            && (more ==> Inside(t, limit, calls, bodies, trace) && bodies < Successes(answers, calls, limit))
            && (!more ==>
                  Stopped(t, limit, calls, bodies, trace, answers) && bodies == Successes(answers, calls, limit))
  {
    SuccessesAnswer(answers, calls, limit);
    hide Successes;
    if 0 < bodies {
      assert trace + Pairs(bodies) == trace + Pairs(bodies - 1) + [Begin] + [End];
    } else {
      assert trace + Pairs(0) == trace;
    }
    hide Pairs;
  }

  lemma OpenStepBlocks(s: State, n: int, answers: Answers)
    requires s.open && Steps(s, n).Some?
    ensures var (t, more) := Next(Steps(s, n).value, answers);
            !more && t.open && t.status == OtherError && t.calls == s.calls && t.trace == s.trace
  {
  }

  class Stream {
    var s: State

    constructor (mode: Mode)
      ensures s == Opened(mode)
    {
      s := Opened(mode);
    }

    /** Answers OK exactly when this call opened a step; while one is open the engine is not asked.
        The trace stays an alternation, and a loop's turn that stands in its body still does. */
    method DoBeginStep(answers: Answers) returns (status: Status)
      requires Balanced(s)
      modifies this
      ensures (s, status) == BeginStep(old(s), answers)
      ensures Balanced(s) && (Inv(old(s)) ==> Inv(s))
      ensures status == OK <==> !old(s.open) && s.open
      ensures s.calls == old(s.calls) <==> old(s.open)
      ensures s.index == old(s.index) && s.maxSteps == old(s.maxSteps) && s.status == old(s.status)
    {
      if !s.open {
        status := answers(s.calls);
        s := s.(calls := s.calls + 1);
        if status == OK {
          s := s.(open := true, trace := s.trace + [Begin]);
        }
        return;
      }
      status := OtherError;
    }

    /** Ends the open step; asking for it with none open would make the engine raise. */
    method DoEndStep()
      requires Balanced(s) && s.open
      modifies this
      ensures s == EndStep(old(s))
      ensures Balanced(s) && !s.open && s.calls == old(s.calls)
    {
      s := s.(open := false, trace := s.trace + [End]);
    }

    method DoSteps(n: int) returns (ok: bool)
      modifies this
      ensures ok <==> Steps(old(s), n).Some?
      ensures Inv(old(s)) ==> Inv(s)
      ensures s.open == old(s.open) && s.trace == old(s.trace) && s.calls == old(s.calls)
      ensures s == (match Steps(old(s), n) case Some(t) => t case None => old(s))
    {
      if !ReadMode(s.mode) && n == 0 {
        return false;
      }
      if s.mode == ReadRandomAccess {
        return false;
      }
      if s.mode == Read && !(s.index < 0) {
        return false;
      }
      s := s.(maxSteps := if n > 0 then n else MAX_SIZE);
      s := s.(index := -1);
      ok := true;
    }

    method DoNext(answers: Answers) returns (more: bool)
      requires Inv(s)
      modifies this
      ensures (s, more) == Next(old(s), answers) && Inv(s)
    {
      DoKeepsInv(s, CallNext, answers);
      if s.index >= 0 && s.status == OK {
        DoEndStep();
      }
      if s.index == s.maxSteps - 1 {
        s := s.(status := EndOfStream);
        return false;
      }
      s := s.(index := s.index + 1);
      var status := DoBeginStep(answers);
      s := s.(status := status);
      if s.status == EndOfStream {
        return false;
      }
      if s.status == NotReady {
        return false;
      }
      if s.status == OtherError {
        return false;
      }
      more := true;
    }

    /** `for _ in stream.steps(n)` run to exhaustion: one begin/end pair for each begin that
        succeeds before the first that does not, at most n of them, and no step left open. Where a
        step is open already, as after a loop was left early, the loop takes no turn, asks the
        engine nothing and leaves the step open. */
    method RunLoop(n: int, answers: Answers) returns (bodies: nat)
      requires Inv(s) && Steps(s, n).Some?
      modifies this
      ensures Inv(s)
      ensures !old(s.open) ==>
                var limit := if n > 0 then n else MAX_SIZE;
                && bodies == Successes(answers, old(s.calls), limit)
                && Stopped(s, limit, old(s.calls), bodies, old(s.trace), answers)
      ensures old(s.open) ==>
                && bodies == 0 && s.open && s.status == OtherError
                && s.calls == old(s.calls) && s.trace == old(s.trace)
    {
      hide Inv;
      hide Steps;
      hide Stopped;
      hide Successes;
      if s.open {
        RunBlocked(n, answers);
        bodies := 0;
      } else {
        bodies := RunFresh(n, answers);
      }
    }

    method RunBlocked(n: int, answers: Answers)
      requires Inv(s) && s.open && Steps(s, n).Some?
      modifies this
      ensures Inv(s) && s.open && s.status == OtherError
      ensures s.calls == old(s.calls) && s.trace == old(s.trace)
    {
      OpenStepBlocks(s, n, answers);
      DoKeepsInv(s, CallSteps(n), answers);
      var ok := DoSteps(n);
      hide Next;
      hide Inv;
      var more := DoNext(answers);
    }

    method RunFresh(n: int, answers: Answers) returns (bodies: nat)
      requires Inv(s) && !s.open && Steps(s, n).Some?
      modifies this
      ensures var limit := if n > 0 then n else MAX_SIZE;
              && Inv(s) && bodies == Successes(answers, old(s.calls), limit)
              && Stopped(s, limit, old(s.calls), bodies, old(s.trace), answers)
    {
      hide Inside;
      hide Stopped;
      hide Next;
      hide Successes;
      hide Inv;
      var limit := if n > 0 then n else MAX_SIZE;
      ghost var trace, calls := s.trace, s.calls;
      SuccessesAnswer(answers, calls, limit);
      DoKeepsInv(s, CallSteps(n), answers);
      var ok := DoSteps(n);
      TurnsOfLoop(s, limit, calls, 0, trace, answers);
      var more := DoNext(answers);
      bodies := 0;
      while more
        invariant Inv(s) && bodies <= Successes(answers, calls, limit) <= limit
        invariant more ==> Inside(s, limit, calls, bodies, trace) && bodies < Successes(answers, calls, limit)
        invariant !more ==>
                    Stopped(s, limit, calls, bodies, trace, answers) && bodies == Successes(answers, calls, limit)
        decreases limit - bodies, more
      {
        bodies := bodies + 1;
        TurnsOfLoop(s, limit, calls, bodies, trace, answers);
        more := DoNext(answers);
      }
    }
  }

  /** In particular an n-step write loop whose begins all succeed makes exactly n pairs. */
  lemma AllSucceed(answers: Answers, from: nat, n: nat)
    requires forall k :: from <= k < from + n ==> answers(k) == OK
    ensures Successes(answers, from, n) == n
  {
    SuccessesAnswer(answers, from, n);
  }
}
