/** The bounded semaphore protocol of the worker's `execute` handler, as a state machine over
    the steps of all requests in every interleaving. */
module WorkerConcurrency {

  datatype Outcome = Success | Busy | Failure
  datatype Phase = Waiting | InFlight | Answered(outcome: Outcome)

  /** The semaphore's counter, where each request stands, and whether `release` ever raised. */
  datatype State = State(permits: int, phases: map<string, Phase>, overReleased: bool)

  datatype Step =
    | Arrive(id: string)
    | Acquire(id: string)
    | TimeOut(id: string)
    | Return(id: string)
    | Raise(id: string)

  function Initial(maxConcurrency: nat): State {
    State(maxConcurrency, map[], false)
  }

  predicate At(s: State, id: string, phase: Phase) {
    id in s.phases && s.phases[id] == phase
  }

  predicate Enabled(s: State, step: Step) {
    match step
    case Arrive(id) => id !in s.phases
    case Acquire(id) => At(s, id, Waiting) && s.permits > 0
    case TimeOut(id) => At(s, id, Waiting)
    case Return(id) => At(s, id, InFlight)
    case Raise(id) => At(s, id, InFlight)
  }

  /** `BoundedSemaphore.release` raises instead of exceeding its initial value. */
  function Release(s: State, maxConcurrency: nat): State {
    if s.permits >= maxConcurrency then s.(overReleased := true) else s.(permits := s.permits + 1)
  }

  function Next(s: State, step: Step, maxConcurrency: nat): State {
    match step
    case Arrive(id) => s.(phases := s.phases[id := Waiting])
    case Acquire(id) => s.(permits := s.permits - 1, phases := s.phases[id := InFlight])
    case TimeOut(id) => s.(phases := s.phases[id := Answered(Busy)])
    case Return(id) => Release(s.(phases := s.phases[id := Answered(Success)]), maxConcurrency)
    case Raise(id) => Release(s.(phases := s.phases[id := Answered(Failure)]), maxConcurrency)
  }

  /** An interleaving: every step is enabled where it is taken. */
  ghost predicate Interleaving(s: State, steps: seq<Step>, maxConcurrency: nat)
    decreases |steps|
  {
    steps == [] || (Enabled(s, steps[0]) && Interleaving(Next(s, steps[0], maxConcurrency), steps[1..], maxConcurrency))
  }

  function After(s: State, steps: seq<Step>, maxConcurrency: nat): State
    decreases |steps|
  {
    if steps == [] then s else After(Next(s, steps[0], maxConcurrency), steps[1..], maxConcurrency)
  }

  function InFlightRequests(s: State): set<string> {
    set id | id in s.phases && s.phases[id] == InFlight
  }

  /** Permits and requests in flight add up to the limit, and no release was one too many. */
  ghost predicate Conserved(s: State, maxConcurrency: nat) {
    s.permits >= 0 && s.permits + |InFlightRequests(s)| == maxConcurrency && !s.overReleased
  }

  lemma PhaseChange(s: State, s': State, id: string, phase: Phase)
    requires s'.phases == s.phases[id := phase]
    ensures InFlightRequests(s') ==
            if phase == InFlight then InFlightRequests(s) + {id} else InFlightRequests(s) - {id}
  {
  }

  lemma StepConserves(s: State, step: Step, maxConcurrency: nat)
    requires Conserved(s, maxConcurrency) && Enabled(s, step)
    ensures Conserved(Next(s, step, maxConcurrency), maxConcurrency)
  {
    var s' := Next(s, step, maxConcurrency);
    PhaseChange(s, s', step.id, s'.phases[step.id]);
    assert step.id in InFlightRequests(s) <==> step.Return? || step.Raise?;
  }

  lemma {:induction false} InterleavingConserves(s: State, steps: seq<Step>, maxConcurrency: nat)
    requires Conserved(s, maxConcurrency) && Interleaving(s, steps, maxConcurrency)
    ensures Conserved(After(s, steps, maxConcurrency), maxConcurrency)
    decreases |steps|
  {
    if steps != [] {
      StepConserves(s, steps[0], maxConcurrency);
      InterleavingConserves(Next(s, steps[0], maxConcurrency), steps[1..], maxConcurrency);
    }
  }

  /** In every interleaving of a fresh worker: at most maxConcurrency executions run, release
      never raises, a waiting request can start exactly while fewer than maxConcurrency run,
      and whenever none runs all permits are back. */
  lemma WorkerNeverLeaksPermits(steps: seq<Step>, maxConcurrency: nat)
    requires Interleaving(Initial(maxConcurrency), steps, maxConcurrency)
    ensures var s := After(Initial(maxConcurrency), steps, maxConcurrency);
            && |InFlightRequests(s)| <= maxConcurrency && !s.overReleased
            && (forall id | At(s, id, Waiting) :: Enabled(s, Acquire(id)) <==> |InFlightRequests(s)| < maxConcurrency)
            && (InFlightRequests(s) == {} <==> s.permits == maxConcurrency)
  {
    assert InFlightRequests(Initial(maxConcurrency)) == {};
    InterleavingConserves(Initial(maxConcurrency), steps, maxConcurrency);
  }

  // ---------- Which answer a request gets ----------

  lemma {:induction false} AfterSnoc(s: State, steps: seq<Step>, step: Step, maxConcurrency: nat)
    ensures After(s, steps + [step], maxConcurrency) == Next(After(s, steps, maxConcurrency), step, maxConcurrency)
    ensures Interleaving(s, steps + [step], maxConcurrency) ==>
              Interleaving(s, steps, maxConcurrency) && Enabled(After(s, steps, maxConcurrency), step)
    decreases |steps|
  {
    if steps == [] {
      assert [step][1..] == [] && steps + [step] == [step];
    } else {
      assert (steps + [step])[1..] == steps[1..] + [step];
      AfterSnoc(Next(s, steps[0], maxConcurrency), steps[1..], step, maxConcurrency);
    }
  }

  /** What has happened to a request, as the steps tell. */
  predicate Told(steps: seq<Step>, id: string, phase: Phase) {
    match phase
    case Waiting => Arrive(id) in steps && Acquire(id) !in steps && TimeOut(id) !in steps
    case InFlight => Acquire(id) in steps && Return(id) !in steps && Raise(id) !in steps
    case Answered(outcome) =>
      match outcome
      case Busy => TimeOut(id) in steps
      case Success => Return(id) in steps
      case Failure => Raise(id) in steps
  }

  /** The steps of a request: it waits after arriving and until it acquires a permit or times out,
      runs from then until its execution returns or raises, and is answered busy, with success or
      with failure exactly after having timed out, returned or raised. */
  lemma {:induction false} AnswerExactly(steps: seq<Step>, maxConcurrency: nat, id: string)
    requires Interleaving(Initial(maxConcurrency), steps, maxConcurrency)
    ensures var s := After(Initial(maxConcurrency), steps, maxConcurrency);
            && (id in s.phases <==> exists step | step in steps :: step.id == id)
            && (id in s.phases ==> forall phase :: Told(steps, id, phase) <==> s.phases[id] == phase)
    decreases |steps|
  {
    if steps != [] {
      var n := |steps| - 1;
      var before, step := steps[..n], steps[n];
      assert steps == before + [step];
      AfterSnoc(Initial(maxConcurrency), before, step, maxConcurrency);
      AnswerExactly(before, maxConcurrency, id);
      var s := After(Initial(maxConcurrency), before, maxConcurrency);
      if id !in s.phases {
        assert forall x | x in before :: x.id != id;
      }
      if step.id != id {
        OtherStepTellsNothing(before, step, id);
      } else {
        StepTells(before, step, s, maxConcurrency);
      }
    }
  }

  lemma OtherStepTellsNothing(before: seq<Step>, step: Step, id: string)
    requires step.id != id
    ensures forall phase :: Told(before + [step], id, phase) <==> Told(before, id, phase)
    ensures (exists x | x in before + [step] :: x.id == id) <==> exists x | x in before :: x.id == id
  {
    assert forall x: Step | x.id == id :: x in before + [step] <==> x in before;
  }

  lemma StepTells(before: seq<Step>, step: Step, s: State, maxConcurrency: nat)
    requires Enabled(s, step)
    requires step.id !in s.phases ==> forall x | x in before :: x.id != step.id
    requires step.id in s.phases ==> forall phase :: Told(before, step.id, phase) <==> s.phases[step.id] == phase
    ensures forall phase ::
              Told(before + [step], step.id, phase) <==> Next(s, step, maxConcurrency).phases[step.id] == phase
  {
    forall phase
      ensures Told(before + [step], step.id, phase) <==> Next(s, step, maxConcurrency).phases[step.id] == phase
    {
      if step.id in s.phases {
        assert Told(before, step.id, Waiting) <==> s.phases[step.id] == Waiting;
        assert Told(before, step.id, InFlight) <==> s.phases[step.id] == InFlight;
        assert Told(before, step.id, Answered(Busy)) <==> s.phases[step.id] == Answered(Busy);
        assert Told(before, step.id, Answered(Success)) <==> s.phases[step.id] == Answered(Success);
        assert Told(before, step.id, Answered(Failure)) <==> s.phases[step.id] == Answered(Failure);
      }
    }
  }
}
