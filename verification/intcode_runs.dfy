/** Properties of whole `run` calls of the Intcode machine: what a run does to
    the I/O queues, the suspend/resume protocol, the meaning of the fuel bound,
    and a few small programs worked through. */
module IntcodeRuns {
  import opened Wrappers
  import opened RustInt
  import opened IntcodeDecoder
  import Mem = IntcodeMemory
  import opened IntcodeLoop
  import opened Intcode

  // ---------------------------------------------------------------------------
  // Properties of whole runs

  /** `later` is `earlier` after some steps: the output buffer has only grown
      at its end and the input queue has only lost values from its front. */
  ghost predicate Follows(earlier: Machine, later: Machine) {
    && earlier.outputs <= later.outputs
    && |later.inputs| <= |earlier.inputs|
    && later.inputs == earlier.inputs[|earlier.inputs| - |later.inputs|..]
  }

  lemma FollowsTransitive(a: Machine, b: Machine, c: Machine)
    requires Follows(a, b) && Follows(b, c)
    ensures Follows(a, c)
  {
    assert b.inputs[|b.inputs| - |c.inputs|..] == a.inputs[|a.inputs| - |c.inputs|..];
  }

  /** A run only appends to the output buffer and only consumes the input
      queue from the front; the termination flag changes only when the run
      returns Finished, and then it is set. */
  lemma RunLoopAppendsAndConsumes(m: Machine, fuel: nat)
    requires !RunLoop(m, fuel).Faulted?
    ensures Follows(m, RunLoop(m, fuel).machine)
    ensures RunLoop(m, fuel) == Returned(RunLoop(m, fuel).machine, Finished) ==> RunLoop(m, fuel).machine.terminated
    ensures RunLoop(m, fuel) != Returned(RunLoop(m, fuel).machine, Finished) ==>
      RunLoop(m, fuel).machine.terminated == m.terminated
  {
    var inv := (x: Machine) => Follows(m, x) && x.terminated == m.terminated;
    forall x | inv(x) && Step(x).Ok? && Step(x).value.Continue?
      ensures inv(Step(x).value.next)
    {
      StepContinues(x);
      FollowsTransitive(m, x, Step(x).value.next);
    }
    LoopInvariant(Step, inv, m, fuel);
    var r := Loop(Step, m, fuel);
    if r.Returned? {
      var x :| inv(x) && Step(x) == Ok(Stopped(r.machine, r.status));
      StepStops(x);
      assert Follows(x, r.machine);
      FollowsTransitive(m, x, r.machine);
    }
  }

  /** A run that has stopped for good or for input gives the same answer with
      any larger fuel: the fuel bound only ever cuts a run short. */
  lemma FuelMonotone(m: Machine, fuel: nat, more: nat)
    requires !RunLoop(m, fuel).OutOfFuel?
    requires fuel <= more
    ensures RunLoop(m, more) == RunLoop(m, fuel)
  {
    LoopFuelMonotone(Step, m, fuel, more);
  }

  /** The machine a WaitingForInput return leaves behind is well formed, has
      an empty queue and rests on the Input instruction that stopped it. */
  lemma WaitingReached(m: Machine, fuel: nat)
    requires RunLoop(m, fuel).Returned? && RunLoop(m, fuel).status == WaitingForInput
    requires WellFormed(m)
    ensures var m' := RunLoop(m, fuel).machine;
      && WellFormed(m')
      && m'.terminated == m.terminated
      && Step(m') == Ok(Stopped(m', WaitingForInput))
      && Fetch(m').Ok? && Fetch(m').value.1 == Input
      && m'.inputs == []
  {
    var inv := (x: Machine) => WellFormed(x) && x.terminated == m.terminated;
    forall x | inv(x) && Step(x).Ok? && Step(x).value.Continue?
      ensures inv(Step(x).value.next)
    {
      StepPreservesWellFormed(x);
      StepContinues(x);
    }
    LoopInvariant(Step, inv, m, fuel);
    var r := Loop(Step, m, fuel);
    var x :| inv(x) && Step(x) == Ok(Stopped(r.machine, r.status));
    StepStops(x);
  }

  /** A run that returns WaitingForInput has emptied the queue and rests on an
      Input instruction; calling `run` again without new input returns at once
      with nothing changed. */
  lemma WaitingIsIdempotent(m: Machine, fuel: nat, again: nat)
    requires Run(m, fuel).Returned? && Run(m, fuel).status == WaitingForInput
    requires WellFormed(m)
    requires again > 0
    ensures var m' := Run(m, fuel).machine;
      && m'.inputs == []
      && !m'.terminated
      && Fetch(m').Ok? && Fetch(m').value.1 == Input
      && Run(m', again) == Returned(m', WaitingForInput)
  {
    WaitingReached(m, fuel);
    var m' := Run(m, fuel).machine;
    LoopStops(Step, m', again);
  }

  /** Resuming a suspended machine with one value: the waiting Input
      instruction stores exactly that value and the queue is empty again. */
  lemma ResumeTakesInput(m: Machine, fuel: nat, v: int)
    requires Run(m, fuel).Returned? && Run(m, fuel).status == WaitingForInput
    requires WellFormed(m)
    requires Step(SendInput(Run(m, fuel).machine, v)).Ok?
    ensures var resumed := SendInput(Run(m, fuel).machine, v);
      && Fetch(resumed) == Fetch(Run(m, fuel).machine)
      && Step(resumed).value.Continue?
      && Step(resumed).value.next.inputs == []
      && Step(resumed).value.next.ip == Run(m, fuel).machine.ip + 2
    ensures var resumed := SendInput(Run(m, fuel).machine, v);
      var ps := Params(resumed, Fetch(resumed).value.0.modes, 1);
      && ps[0].mode != Immediate && Address(resumed, ps[0]).Ok?
      && ValueAt(Step(resumed).value.next, Address(resumed, ps[0]).value) == v
  {
    WaitingReached(m, fuel);
    var waiting := Run(m, fuel).machine;
    var resumed := SendInput(waiting, v);
    assert Fetch(resumed) == Fetch(waiting);
    InputTakesOldest(resumed);
  }

  /** A run that returns Finished leaves a terminated machine that can never
      run again. */
  lemma RunFinishedIsFinal(m: Machine, fuel: nat, again: nat)
    requires Run(m, fuel).Returned? && Run(m, fuel).status == Finished
    ensures Run(m, fuel).machine.terminated
    ensures Run(Run(m, fuel).machine, again) == Faulted(RunAfterFinished)
  {
    RunLoopAppendsAndConsumes(m, fuel);
  }
}
