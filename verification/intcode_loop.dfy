/** The `run` loop shared by both Intcode machines: step until a step returns a
    status, and hand that status to the caller. The loop is written once for
    any machine type and any step function; a `fuel` bound stands in for a
    program that never stops. */
module IntcodeLoop {
  import opened Wrappers

  datatype Status = Finished | WaitingForInput

  /** What one trip round the loop produced: a machine to go on with, or the
      machine the run returns with its status. */
  datatype Outcome<M> = Continue(next: M) | Stopped(last: M, status: Status)

  datatype RunOutcome<M, F> =
    | Returned(machine: M, status: Status)
    | Faulted(fault: F)
    | OutOfFuel(machine: M)

  function Resulting<M>(o: Outcome<M>): M {
    match o
    case Continue(m) => m
    case Stopped(m, _) => m
  }

  /** The loop around `step`, bounded by `fuel` steps. */
  function Loop<M, F>(step: M -> Result<Outcome<M>, F>, m: M, fuel: nat): RunOutcome<M, F>
    decreases fuel
  {
    if fuel == 0 then OutOfFuel(m)
    else match step(m)
      case Err(f) => Faulted(f)
      case Ok(Stopped(m', status)) => Returned(m', status)
      case Ok(Continue(m')) => Loop(step, m', fuel - 1)
  }

  /** A continuing step hands the rest of the run to the next machine. */
  lemma LoopContinues<M, F>(step: M -> Result<Outcome<M>, F>, m: M, fuel: nat)
    requires fuel > 0 && step(m).Ok? && step(m).value.Continue?
    ensures Loop(step, m, fuel) == Loop(step, step(m).value.next, fuel - 1)
  {
  }

  /** A stopping step ends the run with its machine and status, whatever fuel is left. */
  lemma LoopStops<M, F>(step: M -> Result<Outcome<M>, F>, m: M, fuel: nat)
    requires fuel > 0 && step(m).Ok? && step(m).value.Stopped?
    ensures Loop(step, m, fuel) == Returned(step(m).value.last, step(m).value.status)
  {
  }

  /** A property every continuing step keeps holds of every machine the loop
      reaches: of the machine it runs out of fuel on, and of the machine whose
      step ended the run. */
  lemma {:induction false} LoopInvariant<M, F>(step: M -> Result<Outcome<M>, F>, inv: M -> bool, m: M, fuel: nat)
    requires inv(m)
    requires forall x :: inv(x) && step(x).Ok? && step(x).value.Continue? ==> inv(step(x).value.next)
    ensures Loop(step, m, fuel).OutOfFuel? ==> inv(Loop(step, m, fuel).machine)
    ensures Loop(step, m, fuel).Returned? ==>
      exists x :: inv(x) && step(x) == Ok(Stopped(Loop(step, m, fuel).machine, Loop(step, m, fuel).status))
    decreases fuel
  {
    if fuel > 0 && step(m).Ok? && step(m).value.Continue? {
      LoopInvariant(step, inv, step(m).value.next, fuel - 1);
    }
  }

  /** A run that did not run out of fuel gives the same outcome with more fuel. */
  lemma {:induction false} LoopFuelMonotone<M, F>(step: M -> Result<Outcome<M>, F>, m: M, fuel: nat, more: nat)
    requires !Loop(step, m, fuel).OutOfFuel?
    requires fuel <= more
    ensures Loop(step, m, more) == Loop(step, m, fuel)
    decreases fuel
  {
    if step(m).Ok? && step(m).value.Continue? {
      LoopFuelMonotone(step, step(m).value.next, fuel - 1, more - 1);
    }
  }

  /** A step outcome with its machine mapped through `f`. */
  function MapOutcome<M, N>(o: Outcome<M>, f: M -> N): (r: Outcome<N>)
    ensures r.Continue? == o.Continue?
    ensures Resulting(r) == f(Resulting(o))
    ensures r.Stopped? ==> r.status == o.status
  {
    match o
    case Continue(m) => Continue(f(m))
    case Stopped(m, s) => Stopped(f(m), s)
  }

  /** Simulation: when every successful step of one machine (from states
      satisfying `inv`) is matched by the same step of another machine on the
      lifted state, every run of the first that does not fault is matched by a
      run of the second with the same fuel, status and lifted final state. */
  lemma {:induction false} LoopSimulation<M, N, F, G>(
    step: M -> Result<Outcome<M>, F>, other: N -> Result<Outcome<N>, G>,
    lift: M -> N, inv: M -> bool, m: M, fuel: nat)
    requires inv(m)
    requires forall x :: inv(x) && step(x).Ok? ==> other(lift(x)) == Ok(MapOutcome(step(x).value, lift))
    requires forall x :: inv(x) && step(x).Ok? && step(x).value.Continue? ==> inv(step(x).value.next)
    ensures Loop(step, m, fuel).Returned? ==>
      Loop(other, lift(m), fuel) == Returned(lift(Loop(step, m, fuel).machine), Loop(step, m, fuel).status)
    ensures Loop(step, m, fuel).OutOfFuel? ==>
      Loop(other, lift(m), fuel) == OutOfFuel(lift(Loop(step, m, fuel).machine))
    decreases fuel
  {
    if fuel > 0 && step(m).Ok? {
      if step(m).value.Continue? {
        LoopSimulation(step, other, lift, inv, step(m).value.next, fuel - 1);
      }
    }
  }
}
