/** Single instructions in the forms the puzzle statements introduce, and
    three small programs traced to completion. */
module IntcodeExamples {
  import opened Wrappers
  import opened RustInt
  import opened IntcodeDecoder
  import Mem = IntcodeMemory
  import opened IntcodeLoop
  import opened Intcode

  /** A Halt at the pointer ends the run with Finished. */
  lemma HaltStep(m: Machine)
    requires ValueAt(m, m.ip) == 99 && m.ip < U64_MODULUS
    ensures Step(m) == Ok(Stopped(m.(terminated := true), Finished))
  {
    HaltFetch(m);
  }

  lemma HaltFetch(m: Machine)
    requires ValueAt(m, m.ip) == 99
    ensures Fetch(m) == Ok((Instruction(99, []), Halt))
  {
    assert Encode(99, []) == 99;
    FetchEncoded(m, Halt, []);
  }

  /** `1002,a,k,d`: cell `d` receives cell `a` times `k`. */
  lemma MultiplyImmediateStep(m: Machine, a: nat, k: int, d: nat, next: Machine)
    requires m.ip + 4 < U64_MODULUS && a < U64_MODULUS && d < U64_MODULUS
    requires ValueAt(m, m.ip) == 1002 && ValueAt(m, m.ip + 1) == a
    requires ValueAt(m, m.ip + 2) == k && ValueAt(m, m.ip + 3) == d
    requires IsI64(ValueAt(m, a) * k)
    requires next == m.(memory := Mem.Write(m.memory, d, ValueAt(m, a) * k), ip := m.ip + 4)
    ensures Step(m) == Ok(Continue(next))
  {
    var modes := [Position, Immediate];
    MultiplyImmediateFetch(m);
    ThreeParams(m, modes);
    var ps := [Param(Position, a), Param(Immediate, k), Param(Position, d)];
    var m' := m.(memory := Mem.Write(m.memory, d, ValueAt(m, a) * k));
    MultiplyImmediateExecutes(m, a, k, d);
    StepAdvances(m, Instruction(2, modes), Multiply, ps, m', next);
  }

  lemma MultiplyImmediateFetch(m: Machine)
    requires ValueAt(m, m.ip) == 1002
    ensures Fetch(m) == Ok((Instruction(2, [Position, Immediate]), Multiply))
  {
    assert Encode(2, [Position, Immediate]) == 1002;
    FetchEncoded(m, Multiply, [Position, Immediate]);
  }

  lemma MultiplyImmediateExecutes(m: Machine, a: nat, k: int, d: nat)
    requires a < U64_MODULUS && d < U64_MODULUS
    requires IsI64(ValueAt(m, a) * k)
    ensures Execute(m, Multiply, [Param(Position, a), Param(Immediate, k), Param(Position, d)])
      == Ok((m.(memory := Mem.Write(m.memory, d, ValueAt(m, a) * k)), None))
  {
  }

  /** `3,d` with a value queued: cell `d` receives the oldest input. */
  lemma InputStep(m: Machine, d: nat, next: Machine)
    requires m.ip + 2 < U64_MODULUS && d < U64_MODULUS
    requires ValueAt(m, m.ip) == 3 && ValueAt(m, m.ip + 1) == d
    requires m.inputs != []
    requires next == m.(memory := Mem.Write(m.memory, d, m.inputs[0]), inputs := m.inputs[1..], ip := m.ip + 2)
    ensures Step(m) == Ok(Continue(next))
  {
    InputFetch(m);
    OneParam(m, []);
    var ps := [Param(Position, d)];
    var m' := m.(memory := Mem.Write(m.memory, d, m.inputs[0]), inputs := m.inputs[1..]);
    InputPositionExecutes(m, d);
    StepAdvances(m, Instruction(3, []), Input, ps, m', next);
  }

  lemma InputFetch(m: Machine)
    requires ValueAt(m, m.ip) == 3
    ensures Fetch(m) == Ok((Instruction(3, []), Input))
  {
    assert Encode(3, []) == 3;
    FetchEncoded(m, Input, []);
  }

  lemma InputPositionExecutes(m: Machine, d: nat)
    requires d < U64_MODULUS && m.inputs != []
    ensures Execute(m, Input, [Param(Position, d)])
      == Ok((m.(memory := Mem.Write(m.memory, d, m.inputs[0]), inputs := m.inputs[1..]), None))
  {
  }

  /** `4,a`: cell `a` is appended to the output. */
  lemma OutputStep(m: Machine, a: nat, next: Machine)
    requires m.ip + 2 < U64_MODULUS && a < U64_MODULUS
    requires ValueAt(m, m.ip) == 4 && ValueAt(m, m.ip + 1) == a
    requires next == m.(outputs := m.outputs + [ValueAt(m, a)], ip := m.ip + 2)
    ensures Step(m) == Ok(Continue(next))
  {
    OutputFetch(m);
    OneParam(m, []);
    var ps := [Param(Position, a)];
    var m' := m.(outputs := m.outputs + [ValueAt(m, a)]);
    OutputPositionExecutes(m, a);
    StepAdvances(m, Instruction(4, []), Output, ps, m', next);
  }

  lemma OutputFetch(m: Machine)
    requires ValueAt(m, m.ip) == 4
    ensures Fetch(m) == Ok((Instruction(4, []), Output))
  {
    assert Encode(4, []) == 4;
    FetchEncoded(m, Output, []);
  }

  lemma OutputPositionExecutes(m: Machine, a: nat)
    requires a < U64_MODULUS
    ensures Execute(m, Output, [Param(Position, a)]) == Ok((m.(outputs := m.outputs + [ValueAt(m, a)]), None))
  {
  }

  /** `109,k`: the relative base moves by `k`. */
  lemma AdjustBaseImmediateStep(m: Machine, k: int, next: Machine)
    requires m.ip + 2 < U64_MODULUS
    requires ValueAt(m, m.ip) == 109 && ValueAt(m, m.ip + 1) == k
    requires IsI64(m.relativeBase + k)
    requires next == m.(relativeBase := m.relativeBase + k, ip := m.ip + 2)
    ensures Step(m) == Ok(Continue(next))
  {
    AdjustBaseImmediateFetch(m);
    OneParam(m, [Immediate]);
    var ps := [Param(Immediate, k)];
    var m' := m.(relativeBase := m.relativeBase + k);
    AdjustBaseImmediateExecutes(m, k);
    StepAdvances(m, Instruction(9, [Immediate]), AdjustRelativeBase, ps, m', next);
  }

  lemma AdjustBaseImmediateFetch(m: Machine)
    requires ValueAt(m, m.ip) == 109
    ensures Fetch(m) == Ok((Instruction(9, [Immediate]), AdjustRelativeBase))
  {
    assert Encode(9, [Immediate]) == 109;
    FetchEncoded(m, AdjustRelativeBase, [Immediate]);
  }

  lemma AdjustBaseImmediateExecutes(m: Machine, k: int)
    requires IsI64(m.relativeBase + k)
    ensures Execute(m, AdjustRelativeBase, [Param(Immediate, k)]) == Ok((m.(relativeBase := m.relativeBase + k), None))
  {
  }

  /** `21101,x,y,d`: x + y is stored at Relative offset `d`, that is at the
      relative base plus `d`. */
  lemma AddToRelativeStep(m: Machine, x: int, y: int, d: int, next: Machine)
    requires m.ip + 4 < U64_MODULUS
    requires ValueAt(m, m.ip) == 21101 && ValueAt(m, m.ip + 1) == x
    requires ValueAt(m, m.ip + 2) == y && ValueAt(m, m.ip + 3) == d
    requires IsI64(x + y) && 0 <= m.relativeBase + d <= I64_MAX
    requires next == m.(memory := Mem.Write(m.memory, m.relativeBase + d, x + y), ip := m.ip + 4)
    ensures Step(m) == Ok(Continue(next))
  {
    var modes := [Immediate, Immediate, Relative];
    AddToRelativeFetch(m);
    ThreeParams(m, modes);
    var ps := [Param(Immediate, x), Param(Immediate, y), Param(Relative, d)];
    var m' := m.(memory := Mem.Write(m.memory, m.relativeBase + d, x + y));
    AddToRelativeExecutes(m, x, y, d);
    StepAdvances(m, Instruction(1, modes), Add, ps, m', next);
  }

  lemma AddToRelativeFetch(m: Machine)
    requires ValueAt(m, m.ip) == 21101
    ensures Fetch(m) == Ok((Instruction(1, [Immediate, Immediate, Relative]), Add))
  {
    assert Encode(1, [Immediate, Immediate, Relative]) == 21101;
    FetchEncoded(m, Add, [Immediate, Immediate, Relative]);
  }

  lemma AddToRelativeExecutes(m: Machine, x: int, y: int, d: int)
    requires IsI64(x + y) && 0 <= m.relativeBase + d <= I64_MAX
    ensures Execute(m, Add, [Param(Immediate, x), Param(Immediate, y), Param(Relative, d)])
      == Ok((m.(memory := Mem.Write(m.memory, m.relativeBase + d, x + y)), None))
  {
    assert Address(m, Param(Relative, d)) == Ok(m.relativeBase + d);
  }

  /** `1002,4,3,4,33` multiplies cell 4 by 3 in place, turning it into a Halt. */
  lemma MultiplyPatchesHalt()
    ensures Run(Load([1002, 4, 3, 4, 33]), 2) == Returned(Load([1002, 4, 3, 4, 99]).(ip := 4, terminated := true), Finished)
  {
    var m0 := Load([1002, 4, 3, 4, 33]);
    var m1 := Load([1002, 4, 3, 4, 99]).(ip := 4);
    MultiplyPatchesFirst(m0, m1);
    LoopContinues(Step, m0, 2);
    HaltStep(m1);
    LoopStops(Step, m1, 1);
  }

  lemma MultiplyPatchesFirst(m0: Machine, m1: Machine)
    requires m0 == Load([1002, 4, 3, 4, 33])
    requires m1 == Load([1002, 4, 3, 4, 99]).(ip := 4)
    ensures Step(m0) == Ok(Continue(m1))
  {
    MultiplyImmediateStep(m0, 4, 3, 4, m1);
    assert Mem.Write(m0.memory, 4, 99) == m1.memory;
  }

  /** `3,0,4,0,99` echoes its one input. */
  lemma EchoProgram(v: int)
    ensures Run(SendInput(Load([3, 0, 4, 0, 99]), v), 3).Returned?
    ensures Run(SendInput(Load([3, 0, 4, 0, 99]), v), 3).status == Finished
    ensures Run(SendInput(Load([3, 0, 4, 0, 99]), v), 3).machine.outputs == [v]
  {
    var m0 := SendInput(Load([3, 0, 4, 0, 99]), v);
    var m1 := Load([v, 0, 4, 0, 99]).(ip := 2);
    var m2 := m1.(outputs := [v], ip := 4);
    EchoFirst(v, m0, m1);
    LoopContinues(Step, m0, 3);
    EchoSecond(v, m1, m2);
    LoopContinues(Step, m1, 2);
    HaltStep(m2);
    LoopStops(Step, m2, 1);
  }

  lemma EchoFirst(v: int, m0: Machine, m1: Machine)
    requires m0 == SendInput(Load([3, 0, 4, 0, 99]), v)
    requires m1 == Load([v, 0, 4, 0, 99]).(ip := 2)
    ensures Step(m0) == Ok(Continue(m1))
  {
    InputStep(m0, 0, m1);
    assert Mem.Write(m0.memory, 0, v) == m1.memory;
  }

  lemma EchoSecond(v: int, m1: Machine, m2: Machine)
    requires m1 == Load([v, 0, 4, 0, 99]).(ip := 2)
    requires m2 == m1.(outputs := [v], ip := 4)
    ensures Step(m1) == Ok(Continue(m2))
  {
    OutputStep(m1, 0, m2);
  }

  /** `109,1000,21101,2,3,7,99` moves the base to 1000 and then stores 2 + 3 at
      Relative offset 7, that is at address 1007, far past the program; the
      cells in between read as 0. */
  lemma RelativeWriteLandsAtBasePlusOffset()
    ensures var r := Run(Load([109, 1000, 21101, 2, 3, 7, 99]), 3);
      && r.Returned? && r.status == Finished
      && ValueAt(r.machine, 1007) == 5
      && ValueAt(r.machine, 500) == 0
  {
    var m0 := Load([109, 1000, 21101, 2, 3, 7, 99]);
    var m1 := m0.(relativeBase := 1000, ip := 2);
    var m2 := m1.(memory := Mem.Memory([109, 1000, 21101, 2, 3, 7, 99], map[1007 := 5]), ip := 6);
    RelativeFirst(m0, m1);
    LoopContinues(Step, m0, 3);
    RelativeSecond(m1, m2);
    LoopContinues(Step, m1, 2);
    HaltStep(m2);
    LoopStops(Step, m2, 1);
  }

  lemma RelativeFirst(m0: Machine, m1: Machine)
    requires m0 == Load([109, 1000, 21101, 2, 3, 7, 99])
    requires m1 == m0.(relativeBase := 1000, ip := 2)
    ensures Step(m0) == Ok(Continue(m1))
  {
    AdjustBaseImmediateStep(m0, 1000, m1);
  }

  lemma RelativeSecond(m1: Machine, m2: Machine)
    requires m1 == Load([109, 1000, 21101, 2, 3, 7, 99]).(relativeBase := 1000, ip := 2)
    requires m2 == m1.(memory := Mem.Memory([109, 1000, 21101, 2, 3, 7, 99], map[1007 := 5]), ip := 6)
    ensures Step(m1) == Ok(Continue(m2))
  {
    AddToRelativeStep(m1, 2, 3, 7, m2);
  }
}
