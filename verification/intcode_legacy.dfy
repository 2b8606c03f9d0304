/** The earlier Intcode machine: memory is a plain vector of 32-bit cells
    that never grows, so every read or write outside it aborts; only the
    Position and Immediate modes exist; there is no relative base and no
    opcode 9. Its fetch-decode-execute loop, status rule and pointer rule are
    the newer machine's, which `RunRefines` states as a simulation: every run
    of this machine that does not abort is a run of the newer one. */
module IntcodeLegacy {
  import opened Wrappers
  import opened RustInt
  import opened IntcodeDecoder
  import opened IntcodeLoop
  import Mem = IntcodeMemory
  import Text = IntcodeText
  import N = Intcode

  /** The earlier operation table: the newer one without opcode 9. */
  const OP_PAIRS: seq<(nat, N.Op)> := [
    (1, N.Add), (2, N.Multiply), (3, N.Input), (4, N.Output), (5, N.JumpIfTrue),
    (6, N.JumpIfFalse), (7, N.LessThan), (8, N.Equals), (99, N.Halt)
  ]

  function Lookup(code: nat): Option<N.Op> {
    N.LookupIn(OP_PAIRS, code)
  }

  /** The earlier table agrees with the newer one on every opcode but 9, which it lacks. */
  lemma LookupTable(code: nat)
    ensures Lookup(code) == if code == 9 then None else N.Lookup(code)
  {
    N.LookupInFinds(OP_PAIRS, code);
    N.LookupTable(code);
    assert forall i :: 0 <= i < |OP_PAIRS| ==> N.CodeOf(OP_PAIRS[i].1) == OP_PAIRS[i].0;
    if Lookup(code).Some? {
      var i :| 0 <= i < |OP_PAIRS| && OP_PAIRS[i] == (code, Lookup(code).value);
      N.LookupCodeOf(Lookup(code).value);
    } else if code != 9 {
      assert OP_PAIRS[0].0 == 1 && OP_PAIRS[1].0 == 2 && OP_PAIRS[2].0 == 3;
      assert OP_PAIRS[3].0 == 4 && OP_PAIRS[4].0 == 5 && OP_PAIRS[5].0 == 6;
      assert OP_PAIRS[6].0 == 7 && OP_PAIRS[7].0 == 8 && OP_PAIRS[8].0 == 99;
    }
  }

  /** The two modes the earlier machine decodes. */
  const MODE_COUNT: nat := 2

  datatype Fault =
    | OutOfBounds(address: nat)
    | BadMode(digit: int)
    | UnknownOpcode(code: nat)
    | ImmediateWrite
    | Overflow
    | RunAfterFinished

  datatype Machine = Machine(
    memory: seq<int>,
    ip: nat,
    terminated: bool,
    inputs: seq<int>,
    outputs: seq<int>)

  function Load(program: seq<int>): Machine {
    Machine(program, 0, false, [], [])
  }

  /** `from_packed`: every comma-separated piece parsed as an `i32` cell. */
  function FromPacked(text: string): Result<Machine, string> {
    var cells :- Text.ParseProgram(text, I32_MIN, I32_MAX);
    Ok(Load(cells))
  }

  /** The loaded memory holds the values of the text's pieces in order, the
      pointer is 0 and both queues are empty; a failed load names the first
      piece that is not an `i32`. */
  lemma FromPackedCells(text: string)
    ensures var pieces := Text.Split(text, ',');
      var r := FromPacked(text);
      r.Ok? ==> && |r.value.memory| == |pieces|
                && (forall i :: 0 <= i < |pieces| ==> Text.ParseInt(pieces[i], I32_MIN, I32_MAX) == Some(r.value.memory[i]))
                && r.value.ip == 0 && !r.value.terminated
                && r.value.inputs == [] && r.value.outputs == []
    ensures FromPacked(text).Err? ==> exists i ::
      Text.FirstUnparsed(Text.Split(text, ','), i, I32_MIN, I32_MAX) && FromPacked(text).error == Text.Split(text, ',')[i]
  {
    var pieces := Text.Split(text, ',');
    var parsed := Text.ParseAll(pieces, I32_MIN, I32_MAX);
    assert Text.ParseProgram(text, I32_MIN, I32_MAX) == parsed;
    Text.ParseAllMeaning(pieces, I32_MIN, I32_MAX);
    if parsed.Err? {
      var i :| Text.FirstUnparsed(pieces, i, I32_MIN, I32_MAX) && parsed.error == pieces[i];
      assert FromPacked(text) == Err(pieces[i]);
      assert Text.FirstUnparsed(pieces, i, I32_MIN, I32_MAX) && FromPacked(text).error == pieces[i];
    } else {
      assert FromPacked(text) == Ok(Load(parsed.value));
    }
  }

  /** Loading the rendered text of a non-empty `i32` program gives that program. */
  lemma FromPackedRender(program: seq<int>)
    requires |program| >= 1
    requires forall i :: 0 <= i < |program| ==> IsI32(program[i])
    ensures FromPacked(Text.Render(program)) == Ok(Load(program))
  {
    Text.ParseRender(program, I32_MIN, I32_MAX);
  }

  /** `fixup`: cell 1 becomes the noun and cell 2 the verb; a program shorter
      than three cells aborts at the first missing one. */
  function Fixup(m: Machine, noun: int, verb: int): (r: Result<Machine, Fault>)
    ensures r.Ok? <==> |m.memory| >= 3
    ensures |m.memory| < 2 ==> r == Err(OutOfBounds(1))
    ensures |m.memory| == 2 ==> r == Err(OutOfBounds(2))
    ensures r.Ok? ==> && |r.value.memory| == |m.memory|
                      && r.value.memory[1] == noun && r.value.memory[2] == verb
                      && (forall i :: 0 <= i < |m.memory| && i != 1 && i != 2 ==> r.value.memory[i] == m.memory[i])
                      && r.value.(memory := m.memory) == m
  {
    if |m.memory| < 2 then Err(OutOfBounds(1))
    else if |m.memory| < 3 then Err(OutOfBounds(2))
    else Ok(m.(memory := m.memory[1 := noun][2 := verb]))
  }

  /** An `i32` operation result, or the overflow abort. */
  function Checked(v: int): (r: Result<int, Fault>)
    ensures r.Ok? <==> IsI32(v)
    ensures r.Ok? ==> r.value == v
    ensures r.Err? ==> r.error == Overflow
  {
    if IsI32(v) then Ok(v) else Err(Overflow)
  }

  /** A parameter's value: itself in Immediate mode, otherwise the cell it
      names, which must lie inside memory. */
  function ReadParam(m: Machine, p: N.Param): (r: Result<int, Fault>)
    ensures p.mode == Immediate ==> r == Ok(p.value)
    ensures p.mode != Immediate ==> (r.Ok? <==> AsUsize(p.value) < |m.memory|)
    ensures p.mode != Immediate && r.Ok? ==> r.value == m.memory[AsUsize(p.value)]
    ensures p.mode != Immediate && r.Err? ==> r.error == OutOfBounds(AsUsize(p.value))
  {
    if p.mode == Immediate then Ok(p.value)
    else
      var a := AsUsize(p.value);
      if a < |m.memory| then Ok(m.memory[a]) else Err(OutOfBounds(a))
  }

  /** A write through a parameter: never through an Immediate one, and only
      to a cell inside memory. */
  function WriteParam(m: Machine, p: N.Param, v: int): (r: Result<Machine, Fault>)
    ensures p.mode == Immediate ==> r == Err(ImmediateWrite)
    ensures p.mode != Immediate ==> (r.Ok? <==> AsUsize(p.value) < |m.memory|)
    ensures p.mode != Immediate && r.Ok? ==> r.value == m.(memory := m.memory[AsUsize(p.value) := v])
    ensures p.mode != Immediate && r.Err? ==> r.error == OutOfBounds(AsUsize(p.value))
  {
    if p.mode == Immediate then Err(ImmediateWrite)
    else
      var a := AsUsize(p.value);
      if a < |m.memory| then Ok(m.(memory := m.memory[a := v])) else Err(OutOfBounds(a))
  }

  /** The effect of one operation. Opcode 9 has no entry in the earlier table,
      so Execute treats it as unknown. */
  function Execute(m: Machine, op: N.Op, ps: seq<N.Param>): (r: Result<(Machine, Option<Status>), Fault>)
    requires |ps| == N.Arity(op)
    ensures r.Ok? ==> |r.value.0.memory| == |m.memory|
    ensures r.Ok? ==> (r.value.1 == Some(Finished) <==> op == N.Halt)
    ensures r.Ok? ==> (r.value.1 == Some(WaitingForInput) <==> op == N.Input && m.inputs == [])
    ensures r.Ok? && r.value.1 == Some(WaitingForInput) ==> r.value.0 == m
    ensures r.Ok? && !N.IsJump(op) ==> r.value.0.ip == m.ip
    ensures r.Ok? ==> r.value.0.terminated == (m.terminated || op == N.Halt)
  {
    match op
    case Add =>
      var a :- ReadParam(m, ps[0]);
      var b :- ReadParam(m, ps[1]);
      var sum :- Checked(a + b);
      var m' :- WriteParam(m, ps[2], sum);
      Ok((m', None))
    case Multiply =>
      var a :- ReadParam(m, ps[0]);
      var b :- ReadParam(m, ps[1]);
      var product :- Checked(a * b);
      var m' :- WriteParam(m, ps[2], product);
      Ok((m', None))
    case Input =>
      if |m.inputs| == 0 then Ok((m, Some(WaitingForInput)))
      else
        var m' :- WriteParam(m.(inputs := m.inputs[1..]), ps[0], m.inputs[0]);
        Ok((m', None))
    case Output =>
      var v :- ReadParam(m, ps[0]);
      Ok((m.(outputs := m.outputs + [v]), None))
    case JumpIfTrue =>
      var c :- ReadParam(m, ps[0]);
      var target :- ReadParam(m, ps[1]);
      Ok((if c != 0 then m.(ip := AsUsize(target)) else m, None))
    case JumpIfFalse =>
      var c :- ReadParam(m, ps[0]);
      var target :- ReadParam(m, ps[1]);
      Ok((if c == 0 then m.(ip := AsUsize(target)) else m, None))
    case LessThan =>
      var a :- ReadParam(m, ps[0]);
      var b :- ReadParam(m, ps[1]);
      var m' :- WriteParam(m, ps[2], if a < b then 1 else 0);
      Ok((m', None))
    case Equals =>
      var a :- ReadParam(m, ps[0]);
      var b :- ReadParam(m, ps[1]);
      var m' :- WriteParam(m, ps[2], if a == b then 1 else 0);
      Ok((m', None))
    case AdjustRelativeBase =>
      Err(UnknownOpcode(9))
    case Halt =>
      Ok((m.(terminated := true), Some(Finished)))
  }

  /** The instruction at the pointer; the pointer itself must lie inside memory. */
  function Fetch(m: Machine): (r: Result<(Instruction, N.Op), Fault>)
    ensures r.Ok? ==> m.ip < |m.memory|
    ensures m.ip >= |m.memory| ==> r == Err(OutOfBounds(m.ip))
  {
    if m.ip >= |m.memory| then Err(OutOfBounds(m.ip))
    else
      var decoded := Decode(m.memory[m.ip], MODE_COUNT);
      if decoded.Err? then Err(BadMode(decoded.error))
      else
        var instruction := decoded.value;
        match Lookup(instruction.opcode)
        case None => Err(UnknownOpcode(instruction.opcode))
        case Some(op) => Ok((instruction, op))
  }

  /** The `n` parameters after the instruction at the pointer. Reading them
      indexes memory at `ip + 1 + i`; the first index past the end, which is
      the memory length itself, aborts. */
  function Params(m: Machine, modes: seq<Mode>, n: nat): (r: Result<seq<N.Param>, Fault>)
    requires m.ip < |m.memory|
    ensures r.Ok? <==> m.ip + n < |m.memory|
    ensures r.Err? ==> r.error == OutOfBounds(|m.memory|)
    ensures r.Ok? ==> |r.value| == n
    ensures r.Ok? ==> forall i :: 0 <= i < n ==> r.value[i] == N.Param(ModeAt(modes, i), m.memory[m.ip + 1 + i])
  {
    if m.ip + n >= |m.memory| then Err(OutOfBounds(|m.memory|))
    else Ok(seq(n, i requires 0 <= i < n => N.Param(ModeAt(modes, i), m.memory[m.ip + 1 + i])))
  }

  /** One trip round the loop, with the newer machine's status and pointer rules. */
  function Step(m: Machine): Result<Outcome<Machine>, Fault> {
    var (instruction, op) :- Fetch(m);
    var ps :- Params(m, instruction.modes, N.Arity(op));
    var (m', status) :- Execute(m, op, ps);
    if status.Some? then Ok(Stopped(m', status.value))
    else if m'.ip != m.ip then Ok(Continue(m'))
    else Ok(Continue(m'.(ip := m.ip + 1 + N.Arity(op))))
  }

  /** `run`: refuses a finished machine, then loops. */
  function Run(m: Machine, fuel: nat): RunOutcome<Machine, Fault> {
    if m.terminated then Faulted(RunAfterFinished) else Loop(Step, m, fuel)
  }

  /** `send_as_input`: queues a value behind those already waiting. The
      earlier file's method is the newer one's apart from the word type, so
      this is Intcode.SendInput again, on this module's machine. */
  function SendInput(m: Machine, v: int): (r: Machine)
    ensures r.inputs == m.inputs + [v]
    ensures r.(inputs := m.inputs) == m
  {
    m.(inputs := m.inputs + [v])
  }

  /** `drain_outputs`: every buffered output, oldest first, leaving the buffer
      empty. Like SendInput, a copy of Intcode.DrainOutputs on this module's
      machine. */
  function DrainOutputs(m: Machine): (r: (seq<int>, Machine))
    ensures r.0 == m.outputs && r.1.outputs == []
    ensures r.1.(outputs := m.outputs) == m
  {
    (m.outputs, m.(outputs := []))
  }

  /** `get_value_at`: a read that aborts outside memory. */
  function ValueAt(m: Machine, address: nat): (r: Result<int, Fault>)
    ensures r.Ok? <==> address < |m.memory|
    ensures r.Ok? ==> r.value == m.memory[address]
  {
    if address < |m.memory| then Ok(m.memory[address]) else Err(OutOfBounds(address))
  }

  // ---------------------------------------------------------------------------
  // Properties of a step

  /** A step never changes the memory's length. */
  lemma StepKeepsLength(m: Machine)
    requires Step(m).Ok?
    ensures |Resulting(Step(m).value).memory| == |m.memory|
  {
  }

  /** A decoded mode list of the earlier machine holds no Relative mode. */
  lemma {:induction false} DecodedModesValid(r: int)
    requires DecodeModes(r, MODE_COUNT).Ok?
    ensures forall i :: 0 <= i < |DecodeModes(r, MODE_COUNT).value| ==> DecodeModes(r, MODE_COUNT).value[i] != Relative
    decreases Abs(r)
  {
    if r != 0 {
      TDivTenShrinks(r);
      DecodedModesValid(TDiv(r, 10));
      var ms := DecodeModes(r, MODE_COUNT).value;
      var rest := DecodeModes(TDiv(r, 10), MODE_COUNT).value;
      assert ms == [ms[0]] + rest;
    }
  }

  // ---------------------------------------------------------------------------
  // Refinement into the newer machine

  /** The newer machine in the state this one is in: the vector becomes the
      dense segment, with nothing sparse, and the relative base is 0. */
  function Lift(m: Machine): N.Machine {
    N.Machine(Mem.New(m.memory), 0, m.ip, m.terminated, m.inputs, m.outputs)
  }

  /** A successful fetch fetches the same instruction and operation in the newer machine. */
  lemma FetchRefines(m: Machine)
    requires Fetch(m).Ok?
    ensures N.Fetch(Lift(m)) == Ok(Fetch(m).value)
    ensures forall i: nat :: ModeAt(Fetch(m).value.0.modes, i) != Relative
  {
    var raw := m.memory[m.ip];
    assert Mem.Read(Lift(m).memory, m.ip) == raw;
    DecodeModesWidens(TDiv(raw, 100), MODE_COUNT, 3);
    assert Decode(raw, 3) == Decode(raw, MODE_COUNT);
    LookupTable(Fetch(m).value.0.opcode);
    DecodedModesValid(TDiv(raw, 100));
  }

  lemma ReadParamRefines(m: Machine, p: N.Param)
    requires p.mode != Relative && ReadParam(m, p).Ok?
    ensures N.ReadParam(Lift(m), p) == Ok(ReadParam(m, p).value)
  {
  }

  lemma WriteParamRefines(m: Machine, p: N.Param, v: int)
    requires p.mode != Relative && WriteParam(m, p, v).Ok?
    ensures N.WriteParam(Lift(m), p, v) == Ok(Lift(WriteParam(m, p, v).value))
  {
    var a := AsUsize(p.value);
    assert Mem.Write(Mem.New(m.memory), a, v) == Mem.New(m.memory[a := v]);
  }

  /** What an operation does here, it does in the newer machine. */
  lemma ExecuteRefines(m: Machine, op: N.Op, ps: seq<N.Param>)
    requires |ps| == N.Arity(op)
    requires forall i :: 0 <= i < |ps| ==> ps[i].mode != Relative
    requires Execute(m, op, ps).Ok?
    ensures var (m', status) := Execute(m, op, ps).value;
      N.Execute(Lift(m), op, ps) == Ok((Lift(m'), status))
  {
    match op
    case Add | Multiply | LessThan | Equals =>
      ReadParamRefines(m, ps[0]);
      ReadParamRefines(m, ps[1]);
      var a := ReadParam(m, ps[0]).value;
      var b := ReadParam(m, ps[1]).value;
      var v := match op
        case Add => a + b
        case Multiply => a * b
        case LessThan => if a < b then 1 else 0
        case _ => if a == b then 1 else 0;
      WriteParamRefines(m, ps[2], v);
    case Input =>
      if |m.inputs| > 0 {
        var m1 := m.(inputs := m.inputs[1..]);
        assert Lift(m1) == Lift(m).(inputs := m.inputs[1..]);
        WriteParamRefines(m1, ps[0], m.inputs[0]);
      }
    case Output =>
      ReadParamRefines(m, ps[0]);
    case JumpIfTrue | JumpIfFalse =>
      ReadParamRefines(m, ps[0]);
      ReadParamRefines(m, ps[1]);
    case AdjustRelativeBase =>
    case Halt =>
  }

  /** `Step` in terms of the instruction it fetched, the parameters it read
      and what the operation did. */
  lemma StepUnfolds(m: Machine)
    requires Step(m).Ok?
    ensures Fetch(m).Ok?
    ensures var (instruction, op) := Fetch(m).value;
      && Params(m, instruction.modes, N.Arity(op)).Ok?
      && var ps := Params(m, instruction.modes, N.Arity(op)).value;
      && Execute(m, op, ps).Ok?
      && var (m', status) := Execute(m, op, ps).value;
      Step(m).value ==
        if status.Some? then Stopped(m', status.value)
        else if m'.ip != m.ip then Continue(m')
        else Continue(m'.(ip := m.ip + 1 + N.Arity(op)))
  {
  }

  /** Every successful step of this machine is the same step of the newer
      machine on the lifted state, with the same status and pointer rule. */
  lemma StepRefines(m: Machine)
    requires |m.memory| < U64_MODULUS
    requires Step(m).Ok?
    ensures N.Step(Lift(m)) == Ok(MapOutcome(Step(m).value, Lift))
  {
    StepUnfolds(m);
    var (instruction, op) := Fetch(m).value;
    FetchRefines(m);
    var ps := Params(m, instruction.modes, N.Arity(op)).value;
    assert N.Params(Lift(m), instruction.modes, N.Arity(op)) == ps;
    ExecuteRefines(m, op, ps);
    var (m', status) := Execute(m, op, ps).value;
    N.StepComposes(Lift(m), instruction, op, ps, (Lift(m'), status));
    if status.None? && m'.ip == m.ip {
      assert Lift(m'.(ip := m.ip + 1 + N.Arity(op))) == Lift(m').(ip := m.ip + 1 + N.Arity(op));
    }
  }

  /** A run of this machine that returns or runs out of fuel is matched by a
      run of the newer machine on the lifted state: same fuel, same status,
      lifted final state. */
  lemma RunRefines(m: Machine, fuel: nat)
    requires |m.memory| < U64_MODULUS
    ensures Run(m, fuel).Returned? ==>
      N.Run(Lift(m), fuel) == Returned(Lift(Run(m, fuel).machine), Run(m, fuel).status)
    ensures Run(m, fuel).OutOfFuel? ==>
      N.Run(Lift(m), fuel) == OutOfFuel(Lift(Run(m, fuel).machine))
  {
    var inv := (x: Machine) => |x.memory| < U64_MODULUS;
    forall x | inv(x) && Step(x).Ok?
      ensures N.Step(Lift(x)) == Ok(MapOutcome(Step(x).value, Lift))
    {
      StepRefines(x);
    }
    forall x | inv(x) && Step(x).Ok? && Step(x).value.Continue?
      ensures inv(Step(x).value.next)
    {
      StepKeepsLength(x);
    }
    if !m.terminated {
      LoopSimulation(Step, N.Step, Lift, inv, m, fuel);
    }
  }
}
