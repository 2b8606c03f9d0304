/** The Intcode virtual machine: memory, instruction pointer, relative base,
    an input queue and an output buffer. `Run` executes instructions until the
    program halts or an Input instruction finds the queue empty; in the second
    case a later call resumes at the same instruction.

    Cells are 64-bit signed integers. Arithmetic that leaves that range aborts
    (Rust's overflow check); casting a cell to an address reinterprets its bits
    as `usize`, so a negative address lands far beyond the program. */
module Intcode {
  import opened Wrappers
  import opened RustInt
  import opened IntcodeDecoder
  import Mem = IntcodeMemory
  import opened IntcodeLoop
  import Text = IntcodeText

  datatype Op =
    | Add | Multiply | Input | Output | JumpIfTrue | JumpIfFalse
    | LessThan | Equals | AdjustRelativeBase | Halt

  /** The fixed table of the ten operations, keyed by opcode. */
  const OP_PAIRS: seq<(nat, Op)> := [
    (1, Add), (2, Multiply), (3, Input), (4, Output), (5, JumpIfTrue),
    (6, JumpIfFalse), (7, LessThan), (8, Equals), (9, AdjustRelativeBase), (99, Halt)
  ]

  function Arity(op: Op): nat {
    match op
    case Add | Multiply | LessThan | Equals => 3
    case JumpIfTrue | JumpIfFalse => 2
    case Input | Output | AdjustRelativeBase => 1
    case Halt => 0
  }

  /** The operation a table assigns to `code`, if any. */
  function LookupIn(table: seq<(nat, Op)>, code: nat): Option<Op> {
    if |table| == 0 then None
    else if table[0].0 == code then Some(table[0].1)
    else LookupIn(table[1..], code)
  }

  function Lookup(code: nat): Option<Op> {
    LookupIn(OP_PAIRS, code)
  }

  function CodeOf(op: Op): nat {
    match op
    case Add => 1
    case Multiply => 2
    case Input => 3
    case Output => 4
    case JumpIfTrue => 5
    case JumpIfFalse => 6
    case LessThan => 7
    case Equals => 8
    case AdjustRelativeBase => 9
    case Halt => 99
  }

  /** The table gives each operation exactly one opcode and knows no other opcode. */
  lemma LookupTable(code: nat)
    ensures Lookup(code).Some? <==> code in {1, 2, 3, 4, 5, 6, 7, 8, 9, 99}
    ensures Lookup(code).Some? ==> CodeOf(Lookup(code).value) == code
  {
    LookupInFinds(OP_PAIRS, code);
    if Lookup(code).Some? {
      var i :| 0 <= i < |OP_PAIRS| && OP_PAIRS[i] == (code, Lookup(code).value);
      assert i in {0, 1, 2, 3, 4, 5, 6, 7, 8, 9};
    }
  }

  /** A table lookup succeeds exactly when some pair carries the code, and
      then returns that pair's operation. */
  lemma {:induction false} LookupInFinds(table: seq<(nat, Op)>, code: nat)
    ensures LookupIn(table, code).Some? <==> exists i :: 0 <= i < |table| && table[i].0 == code
    ensures LookupIn(table, code).Some? ==>
      exists i :: 0 <= i < |table| && table[i] == (code, LookupIn(table, code).value)
  {
    if |table| > 0 && table[0].0 != code {
      LookupInFinds(table[1..], code);
      if exists i :: 0 <= i < |table| && table[i].0 == code {
        var i :| 0 <= i < |table| && table[i].0 == code;
        assert table[1..][i - 1].0 == code;
      }
      if LookupIn(table, code).Some? {
        var i :| 0 <= i < |table[1..]| && table[1..][i] == (code, LookupIn(table, code).value);
        assert table[i + 1] == table[1..][i];
      }
    }
  }

  lemma LookupCodeOf(op: Op)
    ensures Lookup(CodeOf(op)) == Some(op)
  {
  }

  datatype Fault =
    | BadMode(digit: int)
    | UnknownOpcode(code: nat)
    | ImmediateWrite
    | Overflow
    | RunAfterFinished

  datatype Param = Param(mode: Mode, value: int)

  datatype Machine = Machine(
    memory: Mem.Memory,
    relativeBase: int,
    ip: nat,
    terminated: bool,
    inputs: seq<int>,
    outputs: seq<int>)

  type StepOutcome = Outcome<Machine>

  /** A freshly loaded machine: pointer and base at 0, not terminated, no input or output. */
  function Load(program: seq<int>): Machine {
    Machine(Mem.New(program), 0, 0, false, [], [])
  }

  /** `from_packed`: every comma-separated piece parsed as an `i64` cell; the
      first piece that does not parse aborts the load and is reported. */
  function FromPacked(text: string): Result<Machine, string> {
    var cells :- Text.ParseProgram(text, I64_MIN, I64_MAX);
    Ok(Load(cells))
  }

  /** A loaded program holds, cell by cell, the values of the text's pieces,
      with pointer and base at 0 and both queues empty; a failed load names
      the first piece that is not an `i64`, every earlier piece being one. */
  lemma FromPackedCells(text: string)
    ensures var pieces := Text.Split(text, ',');
      var r := FromPacked(text);
      r.Ok? ==> && r.value.memory == Mem.New(r.value.memory.dense)
                && |r.value.memory.dense| == |pieces|
                && (forall i :: 0 <= i < |pieces| ==> Text.ParseInt(pieces[i], I64_MIN, I64_MAX) == Some(r.value.memory.dense[i]))
                && r.value.ip == 0 && r.value.relativeBase == 0 && !r.value.terminated
                && r.value.inputs == [] && r.value.outputs == []
    ensures FromPacked(text).Err? ==> exists i ::
      Text.FirstUnparsed(Text.Split(text, ','), i, I64_MIN, I64_MAX) && FromPacked(text).error == Text.Split(text, ',')[i]
  {
    var pieces := Text.Split(text, ',');
    var parsed := Text.ParseAll(pieces, I64_MIN, I64_MAX);
    assert Text.ParseProgram(text, I64_MIN, I64_MAX) == parsed;
    Text.ParseAllMeaning(pieces, I64_MIN, I64_MAX);
    if parsed.Err? {
      var i :| Text.FirstUnparsed(pieces, i, I64_MIN, I64_MAX) && parsed.error == pieces[i];
      assert FromPacked(text) == Err(pieces[i]);
      assert Text.FirstUnparsed(pieces, i, I64_MIN, I64_MAX) && FromPacked(text).error == pieces[i];
    } else {
      assert FromPacked(text) == Ok(Load(parsed.value));
    }
  }

  /** Loading the rendered text of a non-empty `i64` program gives the machine `Load` builds. */
  lemma FromPackedRender(program: seq<int>)
    requires |program| >= 1
    requires forall i :: 0 <= i < |program| ==> IsI64(program[i])
    ensures FromPacked(Text.Render(program)) == Ok(Load(program))
  {
    Text.ParseRender(program, I64_MIN, I64_MAX);
  }

  /** An i64 operation result, or the overflow abort. */
  function Checked(v: int): (r: Result<int, Fault>)
    ensures r.Ok? <==> IsI64(v)
    ensures r.Ok? ==> r.value == v
    ensures r.Err? ==> r.error == Overflow
  {
    if IsI64(v) then Ok(v) else Err(Overflow)
  }

  /** The address a Position or Relative parameter designates. */
  function Address(m: Machine, p: Param): Result<nat, Fault>
    requires p.mode != Immediate
  {
    if p.mode == Position then Ok(AsUsize(p.value))
    else
      var a :- Checked(p.value + m.relativeBase);
      Ok(AsUsize(a))
  }

  function ReadParam(m: Machine, p: Param): Result<int, Fault> {
    if p.mode == Immediate then Ok(p.value)
    else
      var a :- Address(m, p);
      Ok(Mem.Read(m.memory, a))
  }

  function WriteParam(m: Machine, p: Param, v: int): Result<Machine, Fault> {
    if p.mode == Immediate then Err(ImmediateWrite)
    else
      var a :- Address(m, p);
      Ok(m.(memory := Mem.Write(m.memory, a, v)))
  }

  /** The effect of one operation on the machine, and the status it returns
      when it ends the run. Only Halt and an Input facing an empty queue return
      a status, and the latter changes nothing; only jumps move the pointer,
      only Input consumes input (the oldest value) and only Output appends
      output. */
  function Execute(m: Machine, op: Op, ps: seq<Param>): (r: Result<(Machine, Option<Status>), Fault>)
    requires |ps| == Arity(op)
    ensures r.Ok? ==> (r.value.1 == Some(Finished) <==> op == Halt)
    ensures r.Ok? ==> (r.value.1 == Some(WaitingForInput) <==> op == Input && m.inputs == [])
    ensures r.Ok? && r.value.1 == Some(WaitingForInput) ==> r.value.0 == m
    ensures r.Ok? && op == Halt ==> r.value.0 == m.(terminated := true)
    ensures r.Ok? && !IsJump(op) ==> r.value.0.ip == m.ip
    ensures r.Ok? ==> r.value.0.inputs == if op == Input && m.inputs != [] then m.inputs[1..] else m.inputs
    ensures r.Ok? && op != Output ==> r.value.0.outputs == m.outputs
    ensures r.Ok? && op == Output ==> ReadParam(m, ps[0]).Ok? && r.value.0.outputs == m.outputs + [ReadParam(m, ps[0]).value]
    ensures r.Ok? ==> r.value.0.terminated == (m.terminated || op == Halt)
  {
    match op
    case Add =>
      var a :- ReadParam(m, ps[0]);
      var b :- ReadParam(m, ps[1]);
      var sum :- Checked(a + b);
      var m' :- WriteParam(m, ps[2], sum);
      Ok((m', None))
    case Multiply =>
      var a :- ReadParam(m, ps[0]);
      var b :- ReadParam(m, ps[1]);
      var product :- Checked(a * b);
      var m' :- WriteParam(m, ps[2], product);
      Ok((m', None))
    case Input =>
      if |m.inputs| == 0 then Ok((m, Some(WaitingForInput)))
      else
        var m' :- WriteParam(m.(inputs := m.inputs[1..]), ps[0], m.inputs[0]);
        Ok((m', None))
    case Output =>
      var v :- ReadParam(m, ps[0]);
      Ok((m.(outputs := m.outputs + [v]), None))
    case JumpIfTrue =>
      var c :- ReadParam(m, ps[0]);
      var target :- ReadParam(m, ps[1]);
      Ok((if c != 0 then m.(ip := AsUsize(target)) else m, None))
    case JumpIfFalse =>
      var c :- ReadParam(m, ps[0]);
      var target :- ReadParam(m, ps[1]);
      Ok((if c == 0 then m.(ip := AsUsize(target)) else m, None))
    case LessThan =>
      var a :- ReadParam(m, ps[0]);
      var b :- ReadParam(m, ps[1]);
      var m' :- WriteParam(m, ps[2], if a < b then 1 else 0);
      Ok((m', None))
    case Equals =>
      var a :- ReadParam(m, ps[0]);
      var b :- ReadParam(m, ps[1]);
      var m' :- WriteParam(m, ps[2], if a == b then 1 else 0);
      Ok((m', None))
    case AdjustRelativeBase =>
      var offset :- ReadParam(m, ps[0]);
      var base :- Checked(m.relativeBase + offset);
      Ok((m.(relativeBase := base), None))
    case Halt =>
      Ok((m.(terminated := true), Some(Finished)))
  }

  /** The `n` parameters following the instruction, each with its mode. */
  function Params(m: Machine, modes: seq<Mode>, n: nat): (ps: seq<Param>)
    ensures |ps| == n
  {
    seq(n, i requires 0 <= i < n => Param(ModeAt(modes, i), Mem.Read(m.memory, m.ip + 1 + i)))
  }

  /** The instruction at the pointer, or the fault decoding it raises. */
  function Fetch(m: Machine): Result<(Instruction, Op), Fault> {
    var decoded := Decode(Mem.Read(m.memory, m.ip), 3);
    if decoded.Err? then Err(BadMode(decoded.error))
    else
      var instruction := decoded.value;
      match Lookup(instruction.opcode)
      case None => Err(UnknownOpcode(instruction.opcode))
      case Some(op) => Ok((instruction, op))
  }

  /** One trip round the fetch-decode-execute loop. A status ends the run with
      the pointer where it was; otherwise the pointer moves past the
      instruction unless the operation itself moved it. */
  function Step(m: Machine): Result<StepOutcome, Fault> {
    var (instruction, op) :- Fetch(m);
    // the parameter addresses are `usize` sums, which abort on overflow
    if m.ip + Arity(op) >= U64_MODULUS then Err(Overflow)
    else
      var effect :- Execute(m, op, Params(m, instruction.modes, Arity(op)));
      var (m', status) := effect;
      if status.Some? then Ok(Stopped(m', status.value))
      else if m'.ip != m.ip then Ok(Continue(m'))
      else if m.ip + 1 + Arity(op) >= U64_MODULUS then Err(Overflow)
      else Ok(Continue(m'.(ip := m.ip + 1 + Arity(op))))
  }

  /** The loop of `run`, bounded by `fuel` steps. */
  function RunLoop(m: Machine, fuel: nat): RunOutcome<Machine, Fault> {
    Loop(Step, m, fuel)
  }

  /** `run`: refuses a finished machine, then loops. */
  function Run(m: Machine, fuel: nat): RunOutcome<Machine, Fault> {
    if m.terminated then Faulted(RunAfterFinished) else RunLoop(m, fuel)
  }

  /** `send_as_input`: queues a value behind those already waiting. */
  function SendInput(m: Machine, v: int): (r: Machine)
    ensures r.inputs == m.inputs + [v]
    ensures r.(inputs := m.inputs) == m
  {
    m.(inputs := m.inputs + [v])
  }

  /** `drain_outputs`: every buffered output, oldest first, leaving the buffer empty. */
  function DrainOutputs(m: Machine): (r: (seq<int>, Machine))
    ensures r.0 == m.outputs && r.1.outputs == []
    ensures r.1.(outputs := m.outputs) == m
  {
    (m.outputs, m.(outputs := []))
  }

  /** `write_memory`: a patch of one cell, as a program write would do it. */
  function WriteMemory(m: Machine, address: nat, v: int): (r: Machine)
    ensures ValueAt(r, address) == v
    ensures forall other: nat :: other != address ==> ValueAt(r, other) == ValueAt(m, other)
    ensures r.(memory := m.memory) == m
  {
    m.(memory := Mem.Write(m.memory, address, v))
  }

  /** `get_value_at`: a side-effect-free read. */
  function ValueAt(m: Machine, address: nat): int {
    Mem.Read(m.memory, address)
  }

  // ---------------------------------------------------------------------------
  // Properties of a single step

  predicate IsJump(op: Op) {
    op == JumpIfTrue || op == JumpIfFalse
  }

  /** A step that continues leaves the pointer just past the instruction,
      unless a jump moved it elsewhere; a jump to its own address therefore
      also advances. Only Input consumes input and only Output produces
      output, one value each. */
  lemma StepContinues(m: Machine)
    requires Step(m).Ok? && Step(m).value.Continue?
    ensures Fetch(m).Ok?
    ensures var (instruction, op) := Fetch(m).value;
      var ps := Params(m, instruction.modes, Arity(op));
      var m' := Step(m).value.next;
      && (!IsJump(op) ==> m'.ip == m.ip + 1 + Arity(op))
      && m'.ip != m.ip
      && m'.ip < U64_MODULUS
      && (op == Input ==> |m.inputs| > 0 && m'.inputs == m.inputs[1..])
      && (op != Input ==> m'.inputs == m.inputs)
      && (op == Output ==> ReadParam(m, ps[0]).Ok? && m'.outputs == m.outputs + [ReadParam(m, ps[0]).value])
      && (op != Output ==> m'.outputs == m.outputs)
      && m'.terminated == m.terminated
  {
    var (instruction, op) := Fetch(m).value;
    var ps := Params(m, instruction.modes, Arity(op));
    StepUnfolds(m);
    if IsJump(op) {
      JumpTargetIsUsize(m, op, ps);
    }
  }

  /** The pointer a jump leaves behind is a `usize`. */
  lemma JumpTargetIsUsize(m: Machine, op: Op, ps: seq<Param>)
    requires IsJump(op) && |ps| == Arity(op) && m.ip < U64_MODULUS
    requires Execute(m, op, ps).Ok?
    ensures Execute(m, op, ps).value.0.ip < U64_MODULUS
  {
  }

  /** `Step` in terms of the instruction it fetched and what that instruction did. */
  lemma StepUnfolds(m: Machine)
    requires Step(m).Ok?
    ensures Fetch(m).Ok?
    ensures var (instruction, op) := Fetch(m).value;
      var ps := Params(m, instruction.modes, Arity(op));
      && m.ip + Arity(op) < U64_MODULUS
      && Execute(m, op, ps).Ok?
      && var (m', status) := Execute(m, op, ps).value;
      Step(m).value ==
        if status.Some? then Stopped(m', status.value)
        else if m'.ip != m.ip then Continue(m')
        else Continue(m'.(ip := m.ip + 1 + Arity(op)))
    ensures var (instruction, op) := Fetch(m).value;
      var ps := Params(m, instruction.modes, Arity(op));
      var (m', status) := Execute(m, op, ps).value;
      status.None? && m'.ip == m.ip ==> m.ip + 1 + Arity(op) < U64_MODULUS
  {
  }

  /** A jump whose condition holds moves the pointer to its target, except
      that a target equal to the jump's own address is indistinguishable from
      "not moved" and the pointer advances past the jump instead. */
  lemma JumpMovesPointer(m: Machine)
    requires Fetch(m).Ok? && IsJump(Fetch(m).value.1)
    requires Step(m).Ok?
    ensures var (instruction, op) := Fetch(m).value;
      var ps := Params(m, instruction.modes, 2);
      var condition := ReadParam(m, ps[0]).value;
      var target := AsUsize(ReadParam(m, ps[1]).value);
      var taken := (op == JumpIfTrue) == (condition != 0);
      Step(m) == Ok(Continue(m.(ip := if taken && target != m.ip then target else m.ip + 3)))
  {
  }

  /** An Input instruction with nothing queued suspends without changing anything. */
  lemma InputWithEmptyQueueSuspends(m: Machine)
    requires Fetch(m).Ok? && Fetch(m).value.1 == Input
    requires m.inputs == []
    requires m.ip + 1 < U64_MODULUS
    ensures Step(m) == Ok(Stopped(m, WaitingForInput))
  {
  }

  /** An Input instruction with a queued value takes the oldest one, stores it
      where its parameter points, and moves the pointer past itself. */
  lemma InputTakesOldest(m: Machine)
    requires Fetch(m).Ok? && Fetch(m).value.1 == Input
    requires m.inputs != []
    requires Step(m).Ok?
    ensures var ps := Params(m, Fetch(m).value.0.modes, 1);
      && ps[0].mode != Immediate
      && Address(m, ps[0]).Ok?
      && Step(m).value.Continue?
      && Step(m).value.next.inputs == m.inputs[1..]
      && Step(m).value.next.ip == m.ip + 2
      && ValueAt(Step(m).value.next, Address(m, ps[0]).value) == m.inputs[0]
  {
    StepUnfolds(m);
    InputExecutes(m, Params(m, Fetch(m).value.0.modes, 1));
  }

  /** What Input does when a value is queued: pop it and store it where the
      parameter points. */
  lemma InputExecutes(m: Machine, ps: seq<Param>)
    requires |ps| == 1 && m.inputs != []
    requires Execute(m, Input, ps).Ok?
    ensures ps[0].mode != Immediate && Address(m, ps[0]).Ok?
    ensures Execute(m, Input, ps).value ==
      (m.(inputs := m.inputs[1..], memory := Mem.Write(m.memory, Address(m, ps[0]).value, m.inputs[0])), None)
  {
    var m1 := m.(inputs := m.inputs[1..]);
    assert Address(m1, ps[0]) == Address(m, ps[0]);
  }

  /** Halt stops the run with Finished and marks the machine terminated; it is
      the only operation that does either. */
  lemma HaltFinishes(m: Machine)
    requires Fetch(m).Ok?
    requires m.ip < U64_MODULUS
    ensures Fetch(m).value.1 == Halt <==> Step(m).Ok? && Step(m).value.Stopped? && Step(m).value.status == Finished
    ensures Fetch(m).value.1 == Halt ==> Step(m) == Ok(Stopped(m.(terminated := true), Finished))
  {
  }

  /** A terminated machine can never run again. */
  lemma FinishedCannotRun(m: Machine, fuel: nat)
    requires m.terminated
    ensures Run(m, fuel) == Faulted(RunAfterFinished)
  {
  }

  /** An opcode outside the table aborts the step; so does a mode digit other than 0, 1 or 2. */
  lemma FetchFaults(m: Machine)
    ensures Decode(ValueAt(m, m.ip), 3).Err? ==> Step(m) == Err(BadMode(Decode(ValueAt(m, m.ip), 3).error))
    ensures Decode(ValueAt(m, m.ip), 3).Ok? && Lookup(Decode(ValueAt(m, m.ip), 3).value.opcode).None? ==>
      Step(m) == Err(UnknownOpcode(Decode(ValueAt(m, m.ip), 3).value.opcode))
  {
  }

  /** Writing through an Immediate parameter aborts. */
  lemma ImmediateDestinationFaults(m: Machine, p: Param, v: int)
    requires p.mode == Immediate
    ensures WriteParam(m, p, v) == Err(ImmediateWrite)
  {
  }

  /** A Relative parameter addresses its value plus the relative base. */
  lemma RelativeAddressing(m: Machine, offset: int)
    requires IsI64(offset + m.relativeBase)
    ensures Address(m, Param(Relative, offset)) == Ok(AsUsize(offset + m.relativeBase))
    ensures ReadParam(m, Param(Relative, offset)) == Ok(ValueAt(m, AsUsize(offset + m.relativeBase)))
  {
  }

  /** Less-than and Equals store exactly 1 when their comparison holds and 0
      otherwise, and change nothing but that cell and the pointer. */
  lemma ComparisonStoresBit(m: Machine)
    requires Fetch(m).Ok? && Fetch(m).value.1 in {LessThan, Equals}
    requires Step(m).Ok?
    ensures var op := Fetch(m).value.1;
      var ps := Params(m, Fetch(m).value.0.modes, 3);
      var a := ReadParam(m, ps[0]).value;
      var b := ReadParam(m, ps[1]).value;
      var m' := Step(m).value.next;
      && Step(m).value.Continue?
      && ps[2].mode != Immediate && Address(m, ps[2]).Ok?
      && ValueAt(m', Address(m, ps[2]).value) == (if (op == LessThan && a < b) || (op == Equals && a == b) then 1 else 0)
      && ValueAt(m', Address(m, ps[2]).value) in {0, 1}
      && m'.ip == m.ip + 4
      && m'.(memory := m.memory, ip := m.ip) == m
  {
  }

  /** Add and Multiply store the sum or product of their two operands, which
      fits in an `i64`, and change nothing but that cell and the pointer. */
  lemma ArithmeticStores(m: Machine)
    requires Fetch(m).Ok? && Fetch(m).value.1 in {Add, Multiply}
    requires Step(m).Ok?
    ensures var op := Fetch(m).value.1;
      var ps := Params(m, Fetch(m).value.0.modes, 3);
      var a := ReadParam(m, ps[0]).value;
      var b := ReadParam(m, ps[1]).value;
      var m' := Step(m).value.next;
      && Step(m).value.Continue?
      && ReadParam(m, ps[0]).Ok? && ReadParam(m, ps[1]).Ok?
      && ps[2].mode != Immediate && Address(m, ps[2]).Ok?
      && ValueAt(m', Address(m, ps[2]).value) == (if op == Add then a + b else a * b)
      && IsI64(ValueAt(m', Address(m, ps[2]).value))
      && m'.ip == m.ip + 4
      && m'.(memory := m.memory, ip := m.ip) == m
  {
  }

  /** When both operands read but their sum or product leaves the `i64`
      range, the step aborts with an overflow, as `+` and `*` on `i64` do in
      a debug build. */
  lemma ArithmeticOverflows(m: Machine)
    requires Fetch(m).Ok? && Fetch(m).value.1 in {Add, Multiply}
    requires var ps := Params(m, Fetch(m).value.0.modes, 3);
      && ReadParam(m, ps[0]).Ok? && ReadParam(m, ps[1]).Ok?
      && var a, b := ReadParam(m, ps[0]).value, ReadParam(m, ps[1]).value;
         !IsI64(if Fetch(m).value.1 == Add then a + b else a * b)
    ensures Step(m) == Err(Overflow)
  {
  }

  /** Opcode 9 adds its operand to the relative base and touches nothing else. */
  lemma AdjustRelativeBaseAdds(m: Machine)
    requires Fetch(m).Ok? && Fetch(m).value.1 == AdjustRelativeBase
    requires Step(m).Ok?
    ensures var ps := Params(m, Fetch(m).value.0.modes, 1);
      var m' := Step(m).value.next;
      && Step(m).value.Continue?
      && m'.relativeBase == m.relativeBase + ReadParam(m, ps[0]).value
      && m'.ip == m.ip + 2
      && m'.(relativeBase := m.relativeBase, ip := m.ip) == m
  {
  }

  // ---------------------------------------------------------------------------
  // The machine invariant

  ghost predicate CellsI64(mem: Mem.Memory) {
    && (forall i :: 0 <= i < |mem.dense| ==> IsI64(mem.dense[i]))
    && (forall a :: a in mem.sparse ==> IsI64(mem.sparse[a]))
  }

  /** What every reachable machine satisfies: the pointer is a `usize`, the
      base and every cell, queued input and output are `i64`, and the sparse
      segment only holds addresses past the program. */
  ghost predicate WellFormed(m: Machine) {
    && m.ip < U64_MODULUS
    && IsI64(m.relativeBase)
    && Mem.Valid(m.memory)
    && CellsI64(m.memory)
    && (forall i :: 0 <= i < |m.inputs| ==> IsI64(m.inputs[i]))
    && (forall i :: 0 <= i < |m.outputs| ==> IsI64(m.outputs[i]))
  }

  lemma ReadI64(mem: Mem.Memory, address: nat)
    requires CellsI64(mem)
    ensures IsI64(Mem.Read(mem, address))
  {
  }

  lemma WriteParamWellFormed(m: Machine, p: Param, v: int)
    requires WellFormed(m) && IsI64(v)
    requires WriteParam(m, p, v).Ok?
    ensures WellFormed(WriteParam(m, p, v).value)
  {
    var m' := WriteParam(m, p, v).value;
    var a := Address(m, p).value;
    assert m'.memory == Mem.Write(m.memory, a, v);
  }

  lemma ReadParamI64(m: Machine, p: Param)
    requires WellFormed(m) && IsI64(p.value)
    requires ReadParam(m, p).Ok?
    ensures IsI64(ReadParam(m, p).value)
  {
    if p.mode != Immediate {
      ReadI64(m.memory, Address(m, p).value);
    }
  }

  /** Every operation keeps a well-formed machine well formed, given
      parameters read from its memory. */
  lemma ExecutePreservesWellFormed(m: Machine, op: Op, ps: seq<Param>)
    requires WellFormed(m) && |ps| == Arity(op)
    requires forall i :: 0 <= i < |ps| ==> IsI64(ps[i].value)
    requires Execute(m, op, ps).Ok?
    ensures var m' := Execute(m, op, ps).value.0;
      IsJump(op) || WellFormed(m')
    ensures IsJump(op) ==> var m' := Execute(m, op, ps).value.0;
      WellFormed(m'.(ip := m.ip))
  {
    var m' := Execute(m, op, ps).value.0;
    match op
    case Add | Multiply | LessThan | Equals =>
      ReadParamI64(m, ps[0]);
      ReadParamI64(m, ps[1]);
      var a := ReadParam(m, ps[0]).value;
      var b := ReadParam(m, ps[1]).value;
      var v := match op
        case Add => a + b
        case Multiply => a * b
        case LessThan => if a < b then 1 else 0
        case _ => if a == b then 1 else 0;
      assert m' == WriteParam(m, ps[2], v).value;
      WriteParamWellFormed(m, ps[2], v);
    case Input =>
      if |m.inputs| > 0 {
        var m1 := m.(inputs := m.inputs[1..]);
        assert WellFormed(m1);
        WriteParamWellFormed(m1, ps[0], m.inputs[0]);
      }
    case Output =>
      ReadParamI64(m, ps[0]);
    case AdjustRelativeBase =>
    case JumpIfTrue | JumpIfFalse =>
      assert m'.(ip := m.ip) == m;
    case Halt =>
  }

  /** Every step from a well-formed machine leads to a well-formed machine. */
  lemma StepPreservesWellFormed(m: Machine)
    requires WellFormed(m)
    requires Step(m).Ok?
    ensures WellFormed(Resulting(Step(m).value))
  {
    StepUnfolds(m);
    var (instruction, op) := Fetch(m).value;
    var ps := Params(m, instruction.modes, Arity(op));
    forall i | 0 <= i < |ps|
      ensures IsI64(ps[i].value)
    {
      ReadI64(m.memory, m.ip + 1 + i);
    }
    ExecutePreservesWellFormed(m, op, ps);
    if IsJump(op) {
      JumpTargetIsUsize(m, op, ps);
    }
  }

  /** The machine `from_packed` builds is well formed when its cells are `i64`. */
  lemma LoadWellFormed(program: seq<int>)
    requires forall i :: 0 <= i < |program| ==> IsI64(program[i])
    ensures WellFormed(Load(program))
  {
  }

  /** A step that returns a status: Finished comes only from Halt, which marks
      the machine terminated; WaitingForInput comes only from an Input with an
      empty queue and leaves the machine exactly as it was. */
  lemma StepStops(m: Machine)
    requires Step(m).Ok? && Step(m).value.Stopped?
    ensures Fetch(m).Ok?
    ensures var op := Fetch(m).value.1;
      var s := Step(m).value;
      && (s.status == Finished <==> op == Halt)
      && (s.status == Finished ==> s.last == m.(terminated := true))
      && (s.status == WaitingForInput ==> op == Input && m.inputs == [] && s.last == m)
  {
  }

  /** A cell built by encoding an operation's code with canonical modes
      fetches back as that operation with those modes. */
  lemma FetchEncoded(m: Machine, op: Op, modes: seq<Mode>)
    requires ValidModes(modes, 3) && Canonical(modes)
    requires ValueAt(m, m.ip) == Encode(CodeOf(op), modes)
    ensures Fetch(m) == Ok((Instruction(CodeOf(op), modes), op))
  {
    DecodeEncode(CodeOf(op), modes, 3);
    LookupCodeOf(op);
  }

  /** `Step` put together from the instruction it fetches, the parameters it
      reads and what the operation does. */
  lemma StepComposes(m: Machine, instruction: Instruction, op: Op, ps: seq<Param>, effect: (Machine, Option<Status>))
    requires Fetch(m) == Ok((instruction, op))
    requires m.ip + 1 + Arity(op) < U64_MODULUS
    requires Params(m, instruction.modes, Arity(op)) == ps
    requires Execute(m, op, ps) == Ok(effect)
    ensures Step(m) == Ok(
      if effect.1.Some? then Stopped(effect.0, effect.1.value)
      else if effect.0.ip != m.ip then Continue(effect.0)
      else Continue(effect.0.(ip := m.ip + 1 + Arity(op))))
  {
  }

  /** A step whose operation neither stops the run nor moves the pointer
      moves the pointer past the instruction. */
  lemma StepAdvances(m: Machine, instruction: Instruction, op: Op, ps: seq<Param>, m': Machine, next: Machine)
    requires Fetch(m) == Ok((instruction, op))
    requires m.ip + 1 + Arity(op) < U64_MODULUS
    requires Params(m, instruction.modes, Arity(op)) == ps
    requires Execute(m, op, ps) == Ok((m', None))
    requires m'.ip == m.ip
    requires next == m'.(ip := m.ip + 1 + Arity(op))
    ensures Step(m) == Ok(Continue(next))
  {
  }

  /** The single parameter of a one-parameter instruction. */
  lemma OneParam(m: Machine, modes: seq<Mode>)
    ensures Params(m, modes, 1) == [Param(ModeAt(modes, 0), ValueAt(m, m.ip + 1))]
  {
  }

  /** The three parameters of a three-parameter instruction. */
  lemma ThreeParams(m: Machine, modes: seq<Mode>)
    ensures Params(m, modes, 3) == [
      Param(ModeAt(modes, 0), ValueAt(m, m.ip + 1)),
      Param(ModeAt(modes, 1), ValueAt(m, m.ip + 2)),
      Param(ModeAt(modes, 2), ValueAt(m, m.ip + 3))]
  {
  }
}
